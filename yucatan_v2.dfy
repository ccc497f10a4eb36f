/**
 * generate-yucatan-rag-v2.js: every article of the v7 listing page becomes
 * a record (id, title, slug made from the title, gallery images, spec
 * line, description), and every record an article of the generated page.
 */
module YucatanV2 {
  import opened Text
  import opened Patterns
  import opened SpecTokens
  import opened Descriptions
  import opened Yucatan
  import Slugs

  /** `class="property-images">([\s\S]*?)<\/div>` */
  const ImagesPattern: Pattern := Block("class=\"property-images\">", "", "</div>")
  /** `src="([^"]+)"` */
  const SourcePattern: Pattern := Quoted("src=\"", "")
  /** `class="property-content"[\s\S]*?<p>([\s\S]*?)<\/p>` */
  const ContentPattern: Pattern := Block("class=\"property-content\"", "<p>", "</p>")

  /** What `parseV6Articles` keeps of one article. */
  datatype V6Article = V6Article(id: nat, title: string, slug: string, images: seq<string>,
                                 specs: string, desc: string)

  /** The sources inside the first `property-images` block, none without one. */
  function ImagesOf(chunk: string): (r: seq<string>)
    ensures forall k :: 0 <= k < |r| ==> r[k] != [] && '"' !in r[k]
  {
    match FirstGroup(ImagesPattern, chunk)
    case None => []
    case Some(g) => Sources(g)
  }

  /** The value of every `src="…"` in `g`, in order. */
  function Sources(g: string): (r: seq<string>)
    ensures forall k :: 0 <= k < |r| ==> r[k] != [] && '"' !in r[k]
  {
    AllFromGroups(SourcePattern, g, 0, 1);
    AllFromMatches(SourcePattern, g, 0);
    var hits := All(SourcePattern, g);
    forall k | 0 <= k < |hits| ensures hits[k].groups[0] != [] && '"' !in hits[k].groups[0] {
      assert MatchAt(SourcePattern, g, hits[k].start) == Some(hits[k]);
      NoQuoteIn(hits[k].groups[0]);
    }
    Captures(hits, 0)
  }

  /** `descMatch ? descMatch[1].trim() : ''`. */
  function ChunkDesc(chunk: string): (r: string)
    ensures NoSpaceAtEnds(r)
  {
    TrimmedGroup(ContentPattern, chunk)
  }

  /** The record of the chunk that comes `i`-th after the split. */
  function V6Record(chunk: string, i: nat): V6Article {
    var title := ChunkTitle(chunk);
    V6Article(ChunkId(chunk, i), title, Slugs.SlugifyV2(title), ImagesOf(chunk),
              ChunkSpecs(chunk), ChunkDesc(chunk))
  }

  /** `parseV6Articles`: one record per chunk, numbered from 1. */
  function V6Articles(html: string): seq<V6Article> {
    MapIndexed(V6Record, Chunks(html), 1)
  }

  /** The image loop of `parseV6Articles`. */
  method ParseImages(chunk: string) returns (images: seq<string>)
    ensures images == ImagesOf(chunk)
  {
    images := [];
    var section := FirstGroup(ImagesPattern, chunk);
    if section.Some? {
      images := ExecAll(SourcePattern, 1, section.value);
    }
  }

  /** The body of the loop of `parseV6Articles`, for the `i`-th part. */
  method ParseChunk(chunk: string, i: nat) returns (record: V6Article)
    ensures record == V6Record(chunk, i)
  {
    var id := ChunkId(chunk, i);
    var title := ChunkTitle(chunk);
    var slug := Slugs.SlugifyV2(title);
    var images := ParseImages(chunk);
    var specs := ChunkSpecs(chunk);
    var desc := ChunkDesc(chunk);
    record := V6Article(id, title, slug, images, specs, desc);
  }

  /** `parseV6Articles`: the loop over the split page from its second
      part on, pushing one record per part. */
  method ParseV6Articles(html: string) returns (articles: seq<V6Article>)
    ensures articles == V6Articles(html)
  {
    var parts := Split(html, ChunkTag);
    ghost var chunks := parts[1..];
    articles := [];
    var i := 1;
    while i < |parts|
      invariant 1 <= i <= |parts|
      invariant articles == MapIndexed(V6Record, chunks[..i - 1], 1)
    {
      var record := ParseChunk(parts[i], i);
      assert chunks[i - 1] == parts[i];
      RecordStep(chunks, i - 1, articles, record);
      articles := articles + [record];
      i := i + 1;
    }
    assert chunks[..i - 1] == chunks;
  }

  lemma RecordStep(chunks: seq<string>, k: nat, done: seq<V6Article>, r: V6Article)
    requires k < |chunks| && done == MapIndexed(V6Record, chunks[..k], 1)
    requires r == V6Record(chunks[k], k + 1)
    ensures done + [r] == MapIndexed(V6Record, chunks[..k + 1], 1)
  {
    MapIndexedPrefix(V6Record, chunks, 1, k);
  }

  /** Every record has a slug of lower-case letters, digits, `_` and
      single hyphens made from its trimmed title, and quote-free images. */
  lemma RecordShape(chunk: string, i: nat)
    ensures var r := V6Record(chunk, i);
      && Slugs.V2SlugShape(r.slug) && r.slug == Slugs.SlugifyV2(r.title)
      && NoSpaceAtEnds(r.title) && NoSpaceAtEnds(r.desc)
      && (forall k :: 0 <= k < |r.images| ==> r.images[k] != [] && '"' !in r.images[k])
      && (!Contains(chunk, IdOpen) ==> r.id == i)
  {
    Slugs.SlugV2Shape(ChunkTitle(chunk));
    if !Contains(chunk, IdOpen) {
      ChunkIdFallback(chunk, i);
    }
  }

  /** How an article of the page opens, after the split tag: its id. */
  function RenderedChunk(id: nat, rest: string): string {
    " " + IdOpen + DecimalString(id) + "\">" + rest
  }

  /** A page of articles written with ids `ids` parses back into one
      record per article, carrying those ids in that order. */
  lemma IdsRoundTrip(preamble: string, chunks: seq<string>, ids: seq<nat>, rests: seq<string>)
    requires |chunks| == |ids| == |rests|
    requires forall k :: 0 <= k < |chunks| ==> chunks[k] == RenderedChunk(ids[k], rests[k])
    requires !Contains(preamble, ChunkTag)
    requires forall k :: 0 <= k < |chunks| ==> !Contains(chunks[k], ChunkTag)
    ensures var records := V6Articles(Join([preamble] + chunks, ChunkTag));
      && |records| == |ids|
      && forall k :: 0 <= k < |ids| ==> records[k].id == ids[k]
  {
    ChunksOfJoin(preamble, chunks);
    forall k | 0 <= k < |ids| ensures ChunkId(chunks[k], k + 1) == ids[k] {
      ChunkIdRendered(ids[k], rests[k], k + 1);
    }
  }

  // ---------------------------------------------------------------
  // Generated page

  /** `buildArticle(art)`, with the v2 spec tokens. */
  function ArticleOf(art: V6Article): seq<Section> {
    BuildArticle(FlagsV2, art.id, art.title, art.slug, art.images, art.specs, art.desc)
  }

  /** The generated page: one article per record, in order; the time of
      generation is a parameter. */
  function Generate(html: string, updated: string): Page {
    BuildPage(updated, Map(ArticleOf, V6Articles(html)))
  }

  /** Each article carries its record's id and title and links to the
      record's slug. */
  lemma ArticleOfFrame(r: V6Article)
    ensures var a := ArticleOf(r);
      && |a| >= 9
      && a[0] == Heading(r.id, r.title)
      && a[|a| - 1] == PropertyLink(VercelBase + "/" + r.slug)
  {
    ArticleFrame(r.id, r.title, r.slug, r.images, Parsed(FlagsV2, Tokens(r.specs)), SplitDescription(r.desc));
  }

  /** The page shows one article per chunk of the input, in order, and
      counts them; each article opens with its record's id and title and
      links to its record's slug. */
  lemma GeneratedArticles(html: string, updated: string)
    ensures var page := Generate(html, updated);
      && page.total == |Chunks(html)| == |page.articles|
      && forall k :: 0 <= k < |page.articles| ==>
           var r := V6Articles(html)[k];
           page.articles[k][0] == Heading(r.id, r.title)
           && page.articles[k][|page.articles[k]| - 1] == PropertyLink(VercelBase + "/" + r.slug)
  {
    var records := V6Articles(html);
    var articles := Map(ArticleOf, records);
    forall k | 0 <= k < |articles|
      ensures articles[k][0] == Heading(records[k].id, records[k].title)
      ensures articles[k][|articles[k]| - 1] == PropertyLink(VercelBase + "/" + records[k].slug)
    {
      ArticleOfFrame(records[k]);
    }
  }
}
