/**
 * What the two Yucatán catalog generators (generate-yucatan-rag.js and
 * generate-yucatan-rag-v2.js) share: cutting a page into article chunks,
 * reading a chunk's id, title and spec line, the spec line's formatting
 * and summary, the description split, and the sections of a generated
 * article and page.
 */
module Yucatan {
  import opened Text
  import opened Patterns
  import opened SpecTokens
  import opened Descriptions

  /** What the page is split on. */
  const ChunkTag: string := "<article class=\"property\""
  /** `<h2>(.*?)<\/h2>` */
  const TitlePattern: Pattern := Line("<h2>", "</h2>")
  /** `📋 Especificaciones:<\/strong><br\/?>\s*([\s\S]*?)\s*<\/div>` */
  const SpecsPattern: Pattern := SpecsLine("\U{1F4CB} Especificaciones:</strong>", true)

  // ---------------------------------------------------------------
  // Chunks

  /** `html.split('<article class="property"')`, without the text before
      the first article: one chunk per occurrence, in document order. */
  function Chunks(html: string): seq<string> {
    Split(html, ChunkTag)[1..]
  }

  /** The chunks and the text before them make up the page again. */
  lemma ChunksRejoin(html: string)
    ensures Join([Split(html, ChunkTag)[0]] + Chunks(html), ChunkTag) == html
  {
    JoinSplit(html, ChunkTag);
    assert [Split(html, ChunkTag)[0]] + Chunks(html) == Split(html, ChunkTag);
  }

  /** A page made of a preamble and chunks, none holding the tag, is cut
      back into exactly those chunks. */
  lemma ChunksOfJoin(preamble: string, chunks: seq<string>)
    requires !Contains(preamble, ChunkTag)
    requires forall k :: 0 <= k < |chunks| ==> !Contains(chunks[k], ChunkTag)
    ensures Chunks(Join([preamble] + chunks, ChunkTag)) == chunks
  {
    var parts := [preamble] + chunks;
    forall k | 0 <= k < |parts| ensures !Contains(parts[k], ChunkTag) {
      if k > 0 {
        assert parts[k] == chunks[k - 1];
      }
    }
    TagOpensOnce();
    SplitJoinFree(parts, ChunkTag);
    assert parts[1..] == chunks;
  }

  lemma TagOpensOnce()
    ensures forall d :: 0 < d < |ChunkTag| ==> ChunkTag[d] != ChunkTag[0]
  {
  }

  // ---------------------------------------------------------------
  // Fields of a chunk

  /** The digits of the first `id="property-N"` are digits. */
  lemma IdDigits(chunk: string)
    ensures FirstGroup(PropertyId, chunk).Some? ==> AllDigits(FirstGroup(PropertyId, chunk).value)
  {
    var m := First(PropertyId, chunk);
    if m.Some? {
      var h := m.value;
      assert MatchAt(PropertyId, chunk, h.start) == Some(h);
      var g := h.groups[0];
      forall i | 0 <= i < |g| ensures IsDigit(g[i]) {
        assert InClass(g[i], Digits);
      }
    }
  }

  /** `idMatch ? parseInt(idMatch[1]) : i`. */
  function ChunkId(chunk: string, i: nat): nat {
    IdDigits(chunk);
    match FirstGroup(PropertyId, chunk)
    case None => i
    case Some(digits) => DecimalValue(digits)
  }

  /** Without an `id="property-` the chunk's index is its id. */
  lemma ChunkIdFallback(chunk: string, i: nat)
    requires !Contains(chunk, IdOpen)
    ensures ChunkId(chunk, i) == i
  {
    forall j | 0 <= j ensures MatchAt(PropertyId, chunk, j).None? {
      if j > |chunk| {
        NoMatchPastEnd(PropertyId, chunk);
      }
    }
  }

  /** The chunk of an article written as `<article class="property"
      id="property-${id}">` gives back that id. */
  lemma ChunkIdRendered(n: nat, rest: string, i: nat)
    ensures ChunkId(" " + IdOpen + DecimalString(n) + "\">" + rest, i) == n
  {
    var digits := DecimalString(n);
    var s := " " + IdOpen + digits + "\">" + rest;
    var a := 1 + |IdOpen|;
    assert s[1..a] == IdOpen;
    assert s[a..a + |digits|] == digits;
    forall j | 0 <= j < |digits| ensures InClass(digits[j], Digits) {
    }
    assert s[a + |digits|] == '"';
    SpanIs(s, a, Digits, |digits|);
    assert s[a + |digits|..a + |digits| + 1] == "\"";
    assert s[0] != IdOpen[0];
    FirstFromIs(PropertyId, s, 0, 1);
    DecimalRoundTrip(n);
  }

  /** `titleMatch ? titleMatch[1].trim() : ''`. */
  function ChunkTitle(chunk: string): (r: string)
    ensures NoSpaceAtEnds(r)
  {
    TrimmedGroup(TitlePattern, chunk)
  }

  /** `specsMatch ? specsMatch[1].trim().replace(/\s+/g, ' ') : ''`. */
  function ChunkSpecs(chunk: string): string {
    match FirstGroup(SpecsPattern, chunk)
    case None => ""
    case Some(line) => CollapseSpaces(Trim(line))
  }

  // ---------------------------------------------------------------
  // Spec formatting

  /** The parts `formatSpecs` joins: the extras first, then the fields. */
  function FormatParts(p: Specs): seq<string> {
    p.extras + FieldTexts(p, DisplayLabels)
  }

  /** `formatSpecs` of a parsed record. */
  function FormatSpecsOf(p: Specs): string {
    Join(FormatParts(p), " | ")
  }

  /** `makeSummary` of a parsed record: the fields only, no extras. */
  function SummaryOf(p: Specs): string {
    Join(FieldTexts(p, SummaryLabels), ", ")
  }

  function FormatSpecs(flags: set<string>, raw: string): string {
    FormatSpecsOf(Parsed(flags, Tokens(raw)))
  }

  function MakeSummary(flags: set<string>, raw: string): string {
    SummaryOf(Parsed(flags, Tokens(raw)))
  }

  /** A formatted record whose texts hold no `|` splits back on ` | `
      into its parts. */
  lemma FormatSplitsBack(p: Specs)
    requires FreeOf(p, '|')
    ensures FormatParts(p) == [] ==> FormatSpecsOf(p) == ""
    ensures FormatParts(p) != [] ==> Split(FormatSpecsOf(p), " | ") == FormatParts(p)
  {
    var parts := FormatParts(p);
    var fields := FieldTexts(p, DisplayLabels);
    DisplayLabelsFreeOfBar();
    FieldTextsFreeOf(p, DisplayLabels, '|');
    if parts != [] {
      forall k | 0 <= k < |parts| ensures '|' !in parts[k] {
        if k >= |p.extras| {
          assert parts[k] == fields[k - |p.extras|];
        }
      }
      SplitJoin(parts, " | ", 1);
    }
  }

  /** The formatted spec line splits back on ` | ` into the extras, in
      input order, followed by the labelled fields. */
  lemma FormatSpecsParts(flags: set<string>, raw: string)
    ensures FormatParts(Parsed(flags, Tokens(raw))) == [] ==> FormatSpecs(flags, raw) == ""
    ensures FormatParts(Parsed(flags, Tokens(raw))) != [] ==>
      Split(FormatSpecs(flags, raw), " | ") == Parsed(flags, Tokens(raw)).extras + FieldTexts(Parsed(flags, Tokens(raw)), DisplayLabels)
  {
    TokensShape(raw);
    ParsedFreeOf(flags, Tokens(raw), '|');
    FormatSplitsBack(Parsed(flags, Tokens(raw)));
  }

  /** When no token holds a comma, the summary splits back on `, ` into
      the labelled fields and nothing else. */
  lemma SummaryParts(flags: set<string>, raw: string)
    requires forall k :: 0 <= k < |Tokens(raw)| ==> ',' !in Tokens(raw)[k]
    ensures FieldTexts(Parsed(flags, Tokens(raw)), SummaryLabels) == [] ==> MakeSummary(flags, raw) == ""
    ensures FieldTexts(Parsed(flags, Tokens(raw)), SummaryLabels) != [] ==>
      Split(MakeSummary(flags, raw), ", ") == FieldTexts(Parsed(flags, Tokens(raw)), SummaryLabels)
  {
    ParsedFreeOf(flags, Tokens(raw), ',');
    SummarySplitsBack(Parsed(flags, Tokens(raw)));
  }

  /** A summary of a record whose texts hold no comma splits back on `, `
      into its labelled fields. */
  lemma SummarySplitsBack(p: Specs)
    requires FreeOf(p, ',')
    ensures FieldTexts(p, SummaryLabels) == [] ==> SummaryOf(p) == ""
    ensures FieldTexts(p, SummaryLabels) != [] ==> Split(SummaryOf(p), ", ") == FieldTexts(p, SummaryLabels)
  {
    var parts := FieldTexts(p, SummaryLabels);
    SummaryLabelsFreeOfComma();
    FieldTextsFreeOf(p, SummaryLabels, ',');
    if parts != [] {
      CommaOpensSeparator();
      SplitJoin(parts, ", ", 0);
    }
  }

  lemma CommaOpensSeparator()
    ensures forall i :: 0 <= i < |", "| && i != 0 ==> ", "[i] != ", "[0]
  {
  }

  // ---------------------------------------------------------------
  // Description split

  /** `splitDesc`, and the same code inline in the older generator: the
      three sections start as the whole text and two empty strings and are
      reassigned when the markers are found. */
  method SplitDesc(desc: string) returns (mainDesc: string, uniqueSection: string, locationSection: string)
    ensures Sections(mainDesc, uniqueSection, locationSection) == SplitDescription(desc)
  {
    mainDesc := desc;
    uniqueSection := "";
    locationSection := "";
    var uniqueIdx := IndexOf(desc, UniqueMarker);
    if uniqueIdx.Some? {
      var u := uniqueIdx.value;
      mainDesc := Trim(desc[..u]);
      var rest := desc[u + |UniqueMarker|..];
      var locIdx := IndexOf(rest, LocationMarker);
      if locIdx.Some? {
        var l := locIdx.value;
        uniqueSection := Trim(rest[..l]);
        locationSection := Trim(rest[l + |LocationMarker|..]);
        SplitBothMarkers(desc, u, rest, l);
      } else {
        uniqueSection := Trim(rest);
        SplitUniqueMarkerOnly(desc, u, rest);
      }
    } else {
      SplitWithoutMarker(desc);
    }
  }

  lemma SplitBothMarkers(desc: string, u: nat, rest: string, l: nat)
    requires IndexOf(desc, UniqueMarker) == Some(u)
    requires u + |UniqueMarker| <= |desc| && rest == desc[u + |UniqueMarker|..]
    requires IndexOf(rest, LocationMarker) == Some(l)
    ensures l + |LocationMarker| <= |rest|
    ensures SplitDescription(desc) == Sections(Trim(desc[..u]), Trim(rest[..l]), Trim(rest[l + |LocationMarker|..]))
  {
  }

  lemma SplitUniqueMarkerOnly(desc: string, u: nat, rest: string)
    requires IndexOf(desc, UniqueMarker) == Some(u)
    requires u + |UniqueMarker| <= |desc| && rest == desc[u + |UniqueMarker|..]
    requires IndexOf(rest, LocationMarker).None?
    ensures SplitDescription(desc) == Sections(Trim(desc[..u]), Trim(rest), "")
  {
  }

  // ---------------------------------------------------------------
  // Generated article

  const VercelBase: string := "https://realestate-viviendas.vercel.app"

  datatype Image = Image(src: string, alt: string)

  /** A `spec-item` span: a labelled field, or an extra with no label. */
  datatype SpecItem = SpecItem(name: string, value: string)

  /** The sections of a generated article, in the order they are written. */
  datatype Section =
    | Heading(id: nat, title: string)
      /** the `RAG_METADATA` comment */
    | Metadata(title: string, url: string, slug: string, specs: string, summary: string,
               images: seq<string>, imagesCount: nat)
    | Meta(title: string, url: string, slug: string, specs: string)
    | QuickRef(images: seq<string>)
    | ImageIndex(text: string)
    | Gallery(pictures: seq<Image>)
    | SpecsBlock(specs: string, detail: seq<SpecItem>)
    | Content(main: string)
    | Unique(text: string)
    | Location(text: string)
    | PropertyLink(url: string)

  /** `images[k] || ''`. */
  function ImageOr(images: seq<string>, k: nat): string {
    if k < |images| then images[k] else ""
  }

  /** The three image slots of the metadata and the quick reference. */
  function FirstThree(images: seq<string>): (r: seq<string>)
    ensures |r| == 3
    ensures forall k :: 0 <= k < 3 ==> r[k] == (if k < |images| then images[k] else "")
  {
    [ImageOr(images, 0), ImageOr(images, 1), ImageOr(images, 2)]
  }

  /** `image_${i + 1}: ${img}`. */
  function IndexEntry(img: string, n: nat): string {
    "image_" + DecimalString(n) + ": " + img
  }

  /** The `<img>` tags of the gallery, with `alt` "title - Imagen n". */
  function GalleryOf(title: string, images: seq<string>): (r: seq<Image>)
    ensures |r| == |images|
    ensures forall k :: 0 <= k < |r| ==>
      r[k].src == images[k] && r[k].alt == title + " - Imagen " + DecimalString(k + 1)
  {
    MapIndexed((img: string, n: nat) => Image(img, title + " - Imagen " + DecimalString(n)), images, 1)
  }

  /** The `spec-item` spans of the labelled fields, each only when truthy. */
  function FieldDetail(p: Specs): (r: seq<SpecItem>)
    ensures |r| <= 4 && forall k :: 0 <= k < |r| ==> r[k].name != ""
  {
    (if Truthy(p.dormitorios) then [SpecItem("\U{1F6CF} Dormitorios:", p.dormitorios.value)] else [])
    + (if Truthy(p.banos) then [SpecItem("\U{1F6BF} Baños:", p.banos.value)] else [])
    + (if Truthy(p.superficie) then [SpecItem("\U{1F4D0} Superficie:", p.superficie.value + " m²")] else [])
    + (if Truthy(p.precio) then [SpecItem("\U{1F4B0} Precio:", p.precio.value + " €")] else [])
  }

  /** The `specs-detail` spans: the truthy fields, then every extra. */
  function SpecDetail(p: Specs): seq<SpecItem> {
    FieldDetail(p) + Map((e: string) => SpecItem("", e), p.extras)
  }

  /** The sections every article has, before the optional ones. */
  function FixedSections(id: nat, title: string, url: string, slug: string,
                         images: seq<string>, p: Specs, main: string): seq<Section>
  {
    [Heading(id, title),
     Metadata(title, url, slug, FormatSpecsOf(p), SummaryOf(p), FirstThree(images), |images|),
     Meta(title, url, slug, FormatSpecsOf(p)),
     QuickRef(FirstThree(images)),
     ImageIndex(Join(MapIndexed(IndexEntry, images, 1), " | ")),
     Gallery(GalleryOf(title, images)),
     SpecsBlock(FormatSpecsOf(p), SpecDetail(p)),
     Content(main)]
  }

  /** The unique and location sections, each only when non-empty. */
  function OptionalSections(d: Sections): seq<Section> {
    (if d.unique != "" then [Unique(d.unique)] else [])
    + (if d.location != "" then [Location(d.location)] else [])
  }

  /** The sections of an article whose spec line parsed to `p` and whose
      description split into `d`. */
  function ArticleSections(id: nat, title: string, slug: string, images: seq<string>,
                           p: Specs, d: Sections): seq<Section>
  {
    var url := VercelBase + "/" + slug;
    FixedSections(id, title, url, slug, images, p, d.main) + OptionalSections(d) + [PropertyLink(url)]
  }

  /** `buildArticle`: the spec line is parsed and the description split,
      then the sections are laid out. */
  function BuildArticle(flags: set<string>, id: nat, title: string, slug: string,
                        images: seq<string>, specsRaw: string, desc: string): seq<Section>
  {
    ArticleSections(id, title, slug, images, Parsed(flags, Tokens(specsRaw)), SplitDescription(desc))
  }

  /** An article opens with its heading and closes with its link; between
      them are the eight fixed sections and the optional ones. */
  lemma ArticleFrame(id: nat, title: string, slug: string, images: seq<string>, p: Specs, d: Sections)
    ensures var a := ArticleSections(id, title, slug, images, p, d);
      && |a| == 9 + (if d.unique != "" then 1 else 0) + (if d.location != "" then 1 else 0)
      && a[0] == Heading(id, title)
      && a[7] == Content(d.main)
      && a[|a| - 1] == PropertyLink(VercelBase + "/" + slug)
  {
    var url := VercelBase + "/" + slug;
    var f := FixedSections(id, title, url, slug, images, p, d.main);
    var o := OptionalSections(d);
    assert |f| == 8 && f[0] == Heading(id, title) && f[7] == Content(d.main);
    assert |o| == (if d.unique != "" then 1 else 0) + (if d.location != "" then 1 else 0);
  }

  /** The metadata's image slots hold the first three images, `''` for a
      missing one, its count is the number of images, and the quick
      reference repeats the slots. */
  lemma ArticleImageSlots(id: nat, title: string, slug: string, images: seq<string>, p: Specs, d: Sections)
    ensures var a := ArticleSections(id, title, slug, images, p, d);
      && a[1].Metadata? && a[1].imagesCount == |images| && |a[1].images| == 3
      && (forall k :: 0 <= k < 3 ==> a[1].images[k] == (if k < |images| then images[k] else ""))
      && a[3] == QuickRef(a[1].images)
  {
    var url := VercelBase + "/" + slug;
    var f := FixedSections(id, title, url, slug, images, p, d.main);
    assert f[1].images == FirstThree(images) && f[3] == QuickRef(FirstThree(images));
  }

  /** The gallery shows every image, in order, with the alt text
      "title - Imagen n" counting from one. */
  lemma ArticleGallery(id: nat, title: string, slug: string, images: seq<string>, p: Specs, d: Sections)
    ensures var a := ArticleSections(id, title, slug, images, p, d);
      && a[5].Gallery? && |a[5].pictures| == |images|
      && forall k :: 0 <= k < |images| ==>
           a[5].pictures[k] == Image(images[k], title + " - Imagen " + DecimalString(k + 1))
  {
    var url := VercelBase + "/" + slug;
    var f := FixedSections(id, title, url, slug, images, p, d.main);
    assert f[5] == Gallery(GalleryOf(title, images));
  }

  /** The unique section is written exactly when the split found a
      non-empty one, and likewise the location section. */
  lemma ArticleOptionalSections(id: nat, title: string, slug: string, images: seq<string>, p: Specs, d: Sections)
    ensures var a := ArticleSections(id, title, slug, images, p, d);
      && ((exists k :: 0 <= k < |a| && a[k].Unique?) <==> d.unique != "")
      && ((exists k :: 0 <= k < |a| && a[k].Location?) <==> d.location != "")
  {
    var url := VercelBase + "/" + slug;
    var a := ArticleSections(id, title, slug, images, p, d);
    var f := FixedSections(id, title, url, slug, images, p, d.main);
    var o := OptionalSections(d);
    assert |f| == 8;
    if d.unique != "" {
      assert a[8] == o[0];
    }
    if d.location != "" {
      assert a[|a| - 2] == o[|o| - 1];
    }
    forall k | 0 <= k < |a| ensures (a[k].Unique? ==> d.unique != "") && (a[k].Location? ==> d.location != "") {
      if k < 8 {
        assert a[k] == f[k];
      } else if k < |a| - 1 {
        assert a[k] == o[k - 8];
      }
    }
  }

  // ---------------------------------------------------------------
  // Generated page

  /** A generated page: the total shown, the update time (an input here),
      and the articles, written in order between `<hr>` dividers. */
  datatype Page = Page(total: nat, updated: string, articles: seq<seq<Section>>)

  function BuildPage(updated: string, articles: seq<seq<Section>>): (page: Page)
    ensures page.total == |page.articles| && page.articles == articles
  {
    Page(|articles|, updated, articles)
  }
}
