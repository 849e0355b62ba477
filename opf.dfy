/** The text of content.opf, the OPF 2.0.1 package document: metadata, a
    manifest item per chapter, image and stylesheet, a spine itemref per
    chapter and a guide entry pointing at the first chapter. */
module Opf {
  import opened Text
  import opened Chapters

  /** The fields of the book record that the package document reads; every
      list holds the "name" fields of its entries. */
  datatype BookInfo = BookInfo(isbn: string, authors: seq<string>, description: string,
                               subjects: seq<string>, publishers: seq<string>, rights: string)

  // ---------------------------------------------------------------------
  // Item ids and manifest lines.

  /** escape("".join(f.split(".")[:-1])): the file name without its last
      extension, remaining dots dropped, escaped. */
  function ItemId(f: string): string {
    var parts := Split(f, '.');
    Escape(Concat(parts[..|parts| - 1]))
  }

  /** The id is the part before the last dot with its own dots removed. */
  lemma ItemIdOfName(a: string, ext: string)
    requires '.' !in ext
    ensures ItemId(a + "." + ext) == Escape(Without(a, '.'))
  {
    SplitSnoc(a, ext, '.');
    var parts := Split(a + "." + ext, '.');
    assert parts[..|parts| - 1] == Split(a, '.');
    ConcatSplit(a, '.');
  }

  /** A name without any dot has the empty id. */
  lemma ItemIdNoDot(f: string)
    requires '.' !in f
    ensures ItemId(f) == ""
  {
    SplitNoSep(f, '.');
  }

  /** dot_split[-1] */
  function Extension(f: string): (r: string)
    ensures '.' !in r
  {
    SplitPiecesFree(f, '.');
    Last(Split(f, '.'))
  }

  /** The image media subtype: every extension containing "jp" is jpeg. */
  function MediaType(ext: string): string {
    if Contains(ext, "jp") then "jpeg" else ext
  }

  function ImageId(f: string): string {
    "img_" + ItemId(f)
  }

  function ChapterItem(f: string): string {
    "<item id=\"" + ItemId(f) + "\" href=\"" + f + "\" media-type=\"application/xhtml+xml\" />"
  }

  function SpineItem(f: string): string {
    "<itemref idref=\"" + ItemId(f) + "\"/>"
  }

  function ImageItem(f: string): string {
    "<item id=\"" + ImageId(f) + "\" href=\"Images/" + f + "\" media-type=\"image/" +
    MediaType(Extension(f)) + "\" />"
  }

  /** The manifest entry of the n-th stylesheet, n counted from 1. */
  function StyleItem(n: nat): string {
    "<item id=\"style_" + Pad2(n) + "\" href=\"Styles/Style" + Pad2(n) + ".css\" media-type=\"text/css\" />"
  }

  function ChapterLines(fs: seq<string>): (r: seq<string>)
    ensures |r| == |fs|
  {
    seq(|fs|, k requires 0 <= k < |fs| => ChapterItem(fs[k]))
  }

  function SpineLines(fs: seq<string>): (r: seq<string>)
    ensures |r| == |fs|
  {
    seq(|fs|, k requires 0 <= k < |fs| => SpineItem(fs[k]))
  }

  function ImageLines(images: seq<string>): (r: seq<string>)
    ensures |r| == |images|
  {
    seq(|images|, k requires 0 <= k < |images| => ImageItem(images[k]))
  }

  /** Stylesheet entries numbered 1 to n. */
  function StyleLines(n: nat): (r: seq<string>)
    ensures |r| == n
  {
    seq(n, k requires 0 <= k < n => StyleItem(k + 1))
  }

  /** The manifest lines after the ncx entry: chapters, images, stylesheets. */
  function ManifestLines(fs: seq<string>, images: seq<string>, styles: nat): seq<string> {
    ChapterLines(fs) + ImageLines(images) + StyleLines(styles)
  }

  /** The manifest holds one item per chapter, image and stylesheet, in that
      order; the k-th chapter item and the k-th spine itemref carry the same
      id. */
  lemma ManifestLayout(fs: seq<string>, images: seq<string>, styles: nat)
    ensures |ManifestLines(fs, images, styles)| == |fs| + |images| + styles
    ensures forall k :: 0 <= k < |fs| ==>
      ManifestLines(fs, images, styles)[k] == ChapterItem(fs[k]) &&
      SpineLines(fs)[k] == "<itemref idref=\"" + ItemId(fs[k]) + "\"/>"
    ensures forall k :: 0 <= k < |images| ==>
      ManifestLines(fs, images, styles)[|fs| + k] == ImageItem(images[k])
    ensures forall n :: 1 <= n <= styles ==>
      ManifestLines(fs, images, styles)[|fs| + |images| + n - 1] == StyleItem(n)
  {
  }

  /** The entry of stylesheet n is a fixed prefix, the padded number and a
      rest that starts with a quote. */
  lemma StyleItemShape(n: nat) returns (rest: string)
    ensures StyleItem(n) == "<item id=\"style_" + (Pad2(n) + rest) && rest != [] && rest[0] == '"'
  {
    rest := "\" href=\"Styles/Style" + Pad2(n) + ".css\" media-type=\"text/css\" />";
  }

  /** Different stylesheet numbers give different manifest entries. */
  lemma StyleItemInjective(m: nat, n: nat)
    requires m != n
    ensures StyleItem(m) != StyleItem(n)
  {
    var rm := StyleItemShape(m);
    var rn := StyleItemShape(n);
    if StyleItem(m) == StyleItem(n) {
      Pad2Value(m);
      Pad2Value(n);
      PrefixCancel("<item id=\"style_", Pad2(m) + rm, Pad2(n) + rn);
      DigitRunPrefix(Pad2(m), rm, Pad2(n), rn);
      Pad2Injective(m, n);
      assert false;
    }
  }

  /** The stylesheet entries are pairwise distinct. */
  lemma StyleLinesDistinct(n: nat)
    ensures forall i, j :: 0 <= i < j < n ==> StyleLines(n)[i] != StyleLines(n)[j]
  {
    forall i, j | 0 <= i < j < n
      ensures StyleLines(n)[i] != StyleLines(n)[j]
    {
      StyleItemInjective(i + 1, j + 1);
    }
  }

  // ---------------------------------------------------------------------
  // The cover.

  /** The cover meta: the first image link met while crawling, else the id
      of the first file of the image listing, else Python's False printed as
      text. */
  function CoverMeta(cover: string, listing: seq<string>): (r: string)
    ensures r != ""
    ensures cover != "" ==> r == cover
    ensures cover == "" && listing != [] ==>
      r == ImageId(listing[0]) && StartsWith(ImageLines(listing)[0], "<item id=\"" + r + "\"")
    ensures cover == "" && listing == [] ==> r == "False"
  {
    if cover != "" then cover
    else if listing != [] then
      var line := ImageLines(listing)[0];
      var p := "<item id=\"" + ImageId(listing[0]) + "\"";
      assert line[..|p|] == p;
      ImageId(listing[0])
    else "False"
  }

  // ---------------------------------------------------------------------
  // The document.

  /** The metadata lines of the authors: each name escaped and used twice. */
  function AuthorLines(authors: seq<string>): seq<string> {
    seq(|authors|, k requires 0 <= k < |authors| =>
      "<dc:creator opf:file-as=\"" + Escape(authors[k]) + "\" opf:role=\"aut\">" +
      Escape(authors[k]) + "</dc:creator>")
  }

  function SubjectLines(subjects: seq<string>): seq<string> {
    seq(|subjects|, k requires 0 <= k < |subjects| => "<dc:subject>" + Escape(subjects[k]) + "</dc:subject>")
  }

  function EscapeAll(names: seq<string>): seq<string> {
    seq(|names|, k requires 0 <= k < |names| => Escape(names[k]))
  }

  /** The identifier: the ISBN, or the book id when the ISBN is empty. */
  function Identifier(info: BookInfo, bookId: string): string {
    if |info.isbn| > 0 then info.isbn else bookId
  }

  /** The XML declaration and the opening of the package and metadata
      elements. */
  const OpfPrologue: string :=
    "<?xml version=\"1.0\" encoding=\"UTF-8\"?>\n" +
    "<package xmlns=\"http://www.idpf.org/2007/opf\" unique-identifier=\"bookid\" version=\"2.0\" >\n" +
    "<metadata xmlns:dc=\"http://purl.org/dc/elements/1.1/\" " +
    " xmlns:opf=\"http://www.idpf.org/2007/opf\">\n"

  /** The end of the metadata, the opening of the manifest and its first
      item, the navigation document toc.ncx. */
  const ManifestHead: string :=
    "</metadata>\n" +
    "<manifest>\n" +
    "<item id=\"ncx\" href=\"toc.ncx\" media-type=\"application/x-dtbncx+xml\" />\n"

  /** content.opf for the given metadata, cover meta, manifest lines, spine
      lines and guide target. The subject lines are followed directly by the
      publisher element. */
  function ContentOpf(info: BookInfo, bookId: string, title: string, cover: string,
                      manifest: seq<string>, spine: seq<string>, guide: string): string
  {
    OpfPrologue +
    "<dc:title>" + Escape(title) + "</dc:title>\n" +
    Join("\n", AuthorLines(info.authors)) + "\n" +
    "<dc:description>" + Escape(info.description) + "</dc:description>\n" +
    Join("\n", SubjectLines(info.subjects)) +
    "<dc:publisher>" + Join(", ", EscapeAll(info.publishers)) + "</dc:publisher>\n" +
    "<dc:rights>" + Escape(info.rights) + "</dc:rights>\n" +
    "<dc:language>en-US</dc:language>\n" +
    "<dc:identifier id=\"bookid\">" + Identifier(info, bookId) + "</dc:identifier>\n" +
    "<meta name=\"cover\" content=\"" + cover + "\"/>\n" +
    ManifestHead +
    Join("\n", manifest) + "\n" +
    "</manifest>\n" +
    "<spine toc=\"ncx\">\n" + Join("\n", spine) + "</spine>\n" +
    "<guide><reference href=\"" + guide + "\" title=\"Cover\" type=\"cover\" /></guide>\n" +
    "</package>"
  }

  /** c["filename"].replace(".html", ".xhtml") for every chapter. */
  function Renamed(cs: seq<Chapter>): (r: seq<Chapter>)
    ensures |r| == |cs|
  {
    seq(|cs|, k requires 0 <= k < |cs| => cs[k].(filename := ReplaceHtml(cs[k].filename)))
  }

  function Filenames(cs: seq<Chapter>): (r: seq<string>)
    ensures |r| == |cs|
  {
    seq(|cs|, k requires 0 <= k < |cs| => cs[k].filename)
  }

  /** After the renaming, the guide target (the first file name rewritten
      once more) is the first file name itself, so the guide points at the
      first chapter item of the manifest; no renamed chapter keeps a
      ".html". */
  lemma GuideIsFirstChapter(cs: seq<Chapter>, images: seq<string>, styles: nat)
    requires |cs| > 0
    ensures var fs := Filenames(Renamed(cs));
      ReplaceHtml(fs[0]) == fs[0] &&
      ManifestLines(fs, images, styles)[0] == ChapterItem(ReplaceHtml(fs[0]))
    ensures forall k :: 0 <= k < |cs| ==> NoHtml(Renamed(cs)[k].filename)
  {
    ReplaceHtmlIdempotent(cs[0].filename);
    forall k | 0 <= k < |cs|
      ensures NoHtml(Renamed(cs)[k].filename)
    {
      ReplaceHtmlLeavesNoHtml(cs[k].filename);
    }
  }
}
