/**
 * generate-yucatan-rag.js: every article of the Yucatán listing page
 * becomes a record (id, title, listing slug, link, description, spec
 * line); the k-th record is then written with the images and the slug of
 * the listing `k` modulo the number of listings.
 */
module YucatanV1 {
  import opened Text
  import opened Patterns
  import opened SpecTokens
  import opened Descriptions
  import opened Yucatan

  const DemoHost: string := "https://demo.ceibaprime.mx"
  /** `href="(https:\/\/demo\.ceibaprime\.mx[^"]+)"` */
  const HrefPattern: Pattern := Quoted("href=\"", DemoHost)
  /** `<p>([\s\S]*?)<\/p>` */
  const ParagraphPattern: Pattern := Block("<p>", "", "</p>")
  const ListingsPath: string := "/listings/"

  /** What `parseYucatanArticles` keeps of one article. */
  datatype YucArticle = YucArticle(id: nat, title: string, slug: string, href: string,
                                   desc: string, specs: string)

  /** `hrefMatch ? hrefMatch[1] : ''`. */
  function ChunkHref(chunk: string): (r: string)
    ensures r == [] || (StartsWith(r, DemoHost) && |r| > |DemoHost| && '"' !in r)
  {
    match First(HrefPattern, chunk)
    case None => ""
    case Some(h) =>
      assert MatchAt(HrefPattern, chunk, h.start) == Some(h);
      var v := h.groups[0];
      NoQuoteIn(v[|DemoHost|..]);
      assert v == DemoHost + v[|DemoHost|..];
      assert v[..|DemoHost|] == DemoHost;
      v
  }

  /** `href.split('/listings/')[1] || ''`: the text between the first and
      the second `/listings/`, or `''` without one. */
  function ListingSlug(href: string): string {
    var parts := Split(href, ListingsPath);
    if |parts| > 1 then parts[1] else ""
  }

  /** `descMatch ? descMatch[1].trim() : ''`, the first paragraph. */
  function ChunkDesc(chunk: string): (r: string)
    ensures NoSpaceAtEnds(r)
  {
    TrimmedGroup(ParagraphPattern, chunk)
  }

  function YucRecord(chunk: string, i: nat): YucArticle {
    var href := ChunkHref(chunk);
    YucArticle(ChunkId(chunk, i), ChunkTitle(chunk), ListingSlug(href), href,
               ChunkDesc(chunk), ChunkSpecs(chunk))
  }

  /** `parseYucatanArticles`: one record per chunk, numbered from 1. */
  function YucArticles(html: string): seq<YucArticle> {
    MapIndexed(YucRecord, Chunks(html), 1)
  }

  /** The body of the loop of `parseYucatanArticles`, for the `i`-th part. */
  method ParseChunk(chunk: string, i: nat) returns (record: YucArticle)
    ensures record == YucRecord(chunk, i)
  {
    var id := ChunkId(chunk, i);
    var title := ChunkTitle(chunk);
    var href := ChunkHref(chunk);
    var parts := Split(href, ListingsPath);
    var slug := if |parts| > 1 then parts[1] else "";
    var desc := ChunkDesc(chunk);
    var specs := ChunkSpecs(chunk);
    record := YucArticle(id, title, slug, href, desc, specs);
  }

  /** `parseYucatanArticles`: the loop over the split page from its second
      part on, pushing one record per part. */
  method ParseYucatanArticles(html: string) returns (articles: seq<YucArticle>)
    ensures articles == YucArticles(html)
  {
    var parts := Split(html, ChunkTag);
    ghost var chunks := parts[1..];
    articles := [];
    var i := 1;
    while i < |parts|
      invariant 1 <= i <= |parts|
      invariant articles == MapIndexed(YucRecord, chunks[..i - 1], 1)
    {
      var record := ParseChunk(parts[i], i);
      assert chunks[i - 1] == parts[i];
      RecordStep(chunks, i - 1, articles, record);
      articles := articles + [record];
      i := i + 1;
    }
    assert chunks[..i - 1] == chunks;
  }

  lemma RecordStep(chunks: seq<string>, k: nat, done: seq<YucArticle>, r: YucArticle)
    requires k < |chunks| && done == MapIndexed(YucRecord, chunks[..k], 1)
    requires r == YucRecord(chunks[k], k + 1)
    ensures done + [r] == MapIndexed(YucRecord, chunks[..k + 1], 1)
  {
    MapIndexedPrefix(YucRecord, chunks, 1, k);
  }

  /** The slug of a listing link `https://demo.ceibaprime.mx/listings/s`
      is `s`, for an `s` without a further `/listings/`. */
  lemma ListingSlugOfLink(s: string)
    requires !Contains(s, ListingsPath)
    ensures ListingSlug(DemoHost + ListingsPath + s) == s
  {
    var href := DemoHost + ListingsPath + s;
    var n := |DemoHost|;
    assert href[n..n + |ListingsPath|] == ListingsPath;
    forall j | 0 <= j < n ensures !OccursAt(href, ListingsPath, j) {
      if j != 6 && j != 7 {
        FirstCharMissing(href, ListingsPath, j);
      } else {
        assert href[j + 1] != ListingsPath[1];
        assert href[j..j + |ListingsPath|][1] == href[j + 1];
      }
    }
    IndexOfIs(href, ListingsPath, n);
    assert href[n + |ListingsPath|..] == s;
    assert IndexOf(s, ListingsPath).None?;
    assert Split(s, ListingsPath) == [s];
    assert Split(href, ListingsPath) == [href[..n]] + Split(s, ListingsPath);
  }

  /** Every record has a trimmed title and description, a link that is
      empty or on the demo host, and the index of its chunk as id when the
      chunk names none. */
  lemma RecordShape(chunk: string, i: nat)
    ensures var r := YucRecord(chunk, i);
      && NoSpaceAtEnds(r.title) && NoSpaceAtEnds(r.desc)
      && (r.href == [] || (StartsWith(r.href, DemoHost) && '"' !in r.href))
      && r.slug == ListingSlug(r.href)
      && (r.href == [] ==> r.slug == [])
      && (!Contains(chunk, IdOpen) ==> r.id == i)
  {
    if !Contains(chunk, IdOpen) {
      ChunkIdFallback(chunk, i);
    }
    assert IndexOf("", ListingsPath).None?;
  }

  // ---------------------------------------------------------------
  // Generated page

  /** An entry of the listings file: its `slug` and `images`, each of
      which may be absent. */
  datatype Listing = Listing(slug: Option<string>, images: Option<seq<string>>)

  /** A value written into a template: an absent one reads `undefined`. */
  function TemplateText(o: Option<string>): string {
    match o
    case None => "undefined"
    case Some(s) => s
  }

  /** `prop.images || []`. */
  function ImagesOr(o: Option<seq<string>>): seq<string> {
    match o
    case None => []
    case Some(images) => images
  }

  /** `buildArticle(yuc, images, vercelSlug)`, with the v1 spec tokens. */
  function ArticleFor(r: YucArticle, l: Listing): seq<Section> {
    BuildArticle(FlagsV1, r.id, r.title, TemplateText(l.slug), ImagesOr(l.images), r.specs, r.desc)
  }

  /** `i % n`, counted out by subtracting `n`. */
  function Turn(k: nat, n: nat): (r: nat)
    requires n > 0
    ensures r < n
  {
    if k < n then k else Turn(k - n, n)
  }

  lemma {:induction false} TurnIsRemainder(k: nat, n: nat)
    requires n > 0
    ensures Turn(k, n) == k % n
    decreases k
  {
    if k >= n {
      TurnIsRemainder(k - n, n);
      ModShift(k - n, n);
    }
  }

  /** The articles: record `k` with listing `k % n`. */
  function ArticlesFor(records: seq<YucArticle>, listings: seq<Listing>): (r: seq<seq<Section>>)
    requires listings != []
    ensures |r| == |records|
  {
    seq(|records|, k requires 0 <= k < |records| => ArticleFor(records[k], listings[Turn(k, |listings|)]))
  }

  /** The generated page, or `None` where `prop.images` is read from the
      `undefined` that `properties[i % 0]` gives: at the first article
      when there are no listings. */
  function Generate(html: string, listings: seq<Listing>, updated: string): Option<Page> {
    var records := YucArticles(html);
    if records == [] then Some(BuildPage(updated, []))
    else if listings == [] then None
    else Some(BuildPage(updated, ArticlesFor(records, listings)))
  }

  /** The page fails exactly when there are articles but no listings, and
      otherwise shows one article per chunk and counts them. */
  lemma GenerateOutcome(html: string, listings: seq<Listing>, updated: string)
    ensures Generate(html, listings, updated).None? <==> (Chunks(html) != [] && listings == [])
    ensures Generate(html, listings, updated).Some? ==>
      var page := Generate(html, listings, updated).value;
      page.total == |page.articles| == |Chunks(html)|
  {
    assert |YucArticles(html)| == |Chunks(html)|;
  }

  /** The link of an article. */
  function LinkOf(a: seq<Section>): string
    requires a != [] && a[|a| - 1].PropertyLink?
  {
    a[|a| - 1].url
  }

  /** Article `k` opens with its record's id and title and links to the
      slug of listing `k % n`. */
  lemma ArticleForFrame(records: seq<YucArticle>, listings: seq<Listing>, k: nat)
    requires listings != [] && k < |records|
    ensures var a := ArticlesFor(records, listings)[k];
      && |a| >= 9
      && a[0] == Heading(records[k].id, records[k].title)
      && a[|a| - 1] == PropertyLink(VercelBase + "/" + TemplateText(listings[k % |listings|].slug))
  {
    var r := records[k];
    TurnIsRemainder(k, |listings|);
    var l := listings[Turn(k, |listings|)];
    ArticleFrame(r.id, r.title, TemplateText(l.slug), ImagesOr(l.images),
                 Parsed(FlagsV1, Tokens(r.specs)), SplitDescription(r.desc));
  }

  /** Listings are handed out in turn: articles `n` apart link to the
      same listing. */
  lemma CyclicListings(records: seq<YucArticle>, listings: seq<Listing>, k: nat)
    requires listings != [] && k + |listings| < |records|
    ensures var arts := ArticlesFor(records, listings);
      LinkOf(arts[k + |listings|]) == LinkOf(arts[k])
  {
    var n := |listings|;
    ArticleForFrame(records, listings, k);
    ArticleForFrame(records, listings, k + n);
    ModShift(k, n);
  }

  /** With no more records than listings, article `k` links to listing
      `k` itself. */
  lemma OneListingEach(records: seq<YucArticle>, listings: seq<Listing>, k: nat)
    requires listings != [] && k < |records| <= |listings|
    ensures LinkOf(ArticlesFor(records, listings)[k]) == VercelBase + "/" + TemplateText(listings[k].slug)
  {
    ArticleForFrame(records, listings, k);
    ModBelow(k, |listings|);
  }
}
