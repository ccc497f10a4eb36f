# Listing extraction and catalog pipeline, in Dafny

This project models the real-estate listing pipeline of the repository:

- the scripts that read a saved listings page and pull out one record per `<article class="property">` (scrape.js, extract.js);
- the scripts that turn those records into catalog pages for retrieval (generate-yucatan-rag.js, generate-yucatan-rag-v2.js, generate-rag-html.js);
- the two React components that show a listing card and an image carousel (PropertyCard.tsx, ImageGallery.tsx).

The model proves properties of that code.

## Modules

| file | module | what it holds |
|---|---|---|
| text.dfy | `Text` | JavaScript string operations: `trim`, `indexOf`, `split`/`join`, `replace`, `toLowerCase`, decimal numbers |
| patterns.dfy | `Patterns` | Each regular expression the scripts use, as an explicit matcher. Also "all non-overlapping matches in order" (the `g`-flag `exec` loop) |
| spec_tokens.dfy | `SpecTokens` | The spec-token parser (`parseSpecsText`, `parseSpecs`). One pass with one token of lookahead, parameterised by the flag set of each variant |
| descriptions.dfy | `Descriptions` | The description split (`splitDesc`) and the three catalog extractors of generate-rag-html.js |
| slugs.dfy | `Slugs` | The two slugifiers (generate-yucatan-rag-v2.js and scrape.js) |
| yucatan.dfy | `Yucatan` | What both Yucatán generators share: chunks, fields, `formatSpecs`, `makeSummary`, article sections, the page |
| yucatan_v1.dfy | `YucatanV1` | generate-yucatan-rag.js: `parseYucatanArticles`, the cyclic `properties[i % n]` assignment |
| yucatan_v2.dfy | `YucatanV2` | generate-yucatan-rag-v2.js: `parseV6Articles`, images, generated page |
| rag_html.dfy | `RagHtml` | generate-rag-html.js: `parseSpecs`, `formatSpecsText`, `propertyToHtml`, `buildHtml` |
| scrape.dfy | `Scrape` | `extractArticles`, `parseImages`, `getInner`, `stripTags`, `slugify`, `parseOriginalUrl`, record assembly |
| extract.dfy | `Extract` | The extraction loop of extract.js and its in-place link rewrite of the page |
| property_card.dfy | `PropertyCard` | Card derivations (price, sold flag, spec pairs, thumbnails, badge), the modal index, the card's modal state |
| image_gallery.dfy | `ImageGallery` | The carousel: `active` index, `prev`/`next`/thumbnail selection, what is shown |

Loops of the source are modelled as methods with invariants, each proved equal to a specification function. These include:

- the `parseSpecsText` loop with its `i++` skip;
- the `exec` loops of `extractArticles`, `parseImages` and extract.js;
- the chunk loops of both Yucatán parsers;
- the `keySpecs` loop;
- `splitDesc` with its reassigned `let`s.

The components' state becomes classes whose methods change `active`, `modalOpen` and `modalIndex`. Everything else is functions and lemmas.

## Model

| member | source | states |
|---|---|---|
| SpecTokens.ParseTokens | generate-yucatan-rag-v2.js:78-90 | The token loop, including the `i++` skip after a unit label, computes exactly `Parsed(flags, parts)`, the left-to-right reading of the tokens. |
| SpecTokens.PriceIsLastPriceToken | generate-yucatan-rag-v2.js:82 | `precio` is null iff no token starts with `Precio:`. Otherwise it is the trimmed remainder of a `Precio:` token (the last such token). |
| SpecTokens.PriceValueIsRemainder | generate-yucatan-rag-v2.js:82 | The price value is the text after `Precio:`, trimmed. |
| SpecTokens.PriceBeforeFlag | generate-yucatan-rag-v2.js:82-83 | A token that is both a price and a flag sets the price and is not kept as an extra: the price test runs first. |
| SpecTokens.FlagsKept | generate-yucatan-rag-v2.js:83 | Every occurrence of a flag token ends up in `extras`, as often as it occurs in the input. |
| SpecTokens.ParsedFlag | generate-yucatan-rag-v2.js:83 | A flag token is consumed alone: it becomes an extra, and parsing goes on with the next token. |
| SpecTokens.ParsedPair | generate-yucatan-rag-v2.js:84-87 | A non-flag token followed by a unit label is bound to that unit, and the label is skipped. |
| SpecTokens.LaterPairWins | generate-yucatan-rag-v2.js:85 | For any two non-price, non-flag values `a` and `b` and any unit label `w`, `a w b w` leaves `b` in that unit's field: a later pair overwrites an earlier one. |
| SpecTokens.DormitoriosIsLabel | generate-yucatan-rag-v2.js:85 | `Dormitorios` is recognised as the bedrooms label after lower-casing. |
| SpecTokens.UnitLabelNotPrice | generate-yucatan-rag-v2.js:82-87 | A unit label never starts with `Precio:`. |
| SpecTokens.FieldsArePairs | generate-yucatan-rag-v2.js:84-87 | Every bound field value is a token that is neither a price nor a flag, and is directly followed by that unit's label. |
| SpecTokens.LastTokenIsExtra | generate-yucatan-rag-v2.js:84-88 | A last token that is neither a price nor a label is the last extra. It has nothing after it to pair with, because `next` defaults to `''`, and nothing before it can consume it. |
| SpecTokens.ExtrasInOrder | generate-yucatan-rag-v2.js:83-88 | `extras` is a subsequence of the tokens, in input order, and holds no price token. |
| SpecTokens.ParsedLast | generate-yucatan-rag-v2.js:84-88 | A single non-price token is an extra. |
| SpecTokens.FlagsOnlyMatterWhenPresent | generate-yucatan-rag.js:67 | Two flag sets that agree on every token give the same record. |
| SpecTokens.VariantsAgreeWithoutSold | generate-yucatan-rag.js:67 | Without a `VENDIDO` token, the single-flag parser and the two-flag parser agree. |
| SpecTokens.SoldBeforeLabel | generate-yucatan-rag.js:67-69 | `VENDIDO` followed by any unit label: the newer script keeps both as extras. The older one binds `VENDIDO` to that label's field. |
| SpecTokens.FlagsNotPrices | generate-yucatan-rag.js:59 | Neither status flag, `VENDIDO` nor `En construcción`, is read as a price token. |
| SpecTokens.TokensShape | generate-yucatan-rag-v2.js:77 | Split, trim and filter give non-empty tokens, trimmed at both ends, none holding `\|`. |
| SpecTokens.TokensRoundTrip | generate-yucatan-rag-v2.js:77 | Joining trimmed, non-empty, `\|`-free tokens with `\|` and tokenising again gives the tokens back. |
| SpecTokens.TrimAllTrimmed | generate-rag-html.js:41 | Trimming tokens that are already trimmed changes nothing. |
| SpecTokens.NonEmptyOfNonEmpty | generate-yucatan-rag-v2.js:77 | `filter(Boolean)` keeps a list of non-empty tokens unchanged. |
| SpecTokens.ParsedFreeOf | generate-yucatan-rag-v2.js:78-90 | Every text the parser stores comes from a token: a character absent from all tokens is absent from the record. |
| SpecTokens.FieldTexts | generate-yucatan-rag-v2.js:97-100 | The labelled field texts, in the order dorms, baños, m², precio. There are at most four, and they are empty exactly when no field is truthy. |
| SpecTokens.FieldTextsFreeOf | generate-yucatan-rag-v2.js:97-100 | A character in neither the record nor the wording is absent from every field text. |
| SpecTokens.OverrideAssociative | generate-yucatan-rag-v2.js:80-89 | Applying the loop's assignments in two batches equals applying them in one batch. |
| Descriptions.SplitWithoutMarker | generate-yucatan-rag-v2.js:116-121 | Without `¿Qué la hace única?:`, the main text is the input unchanged (untrimmed), and both sections are empty. |
| Descriptions.SplitSectionsClean | generate-yucatan-rag-v2.js:120-130 | With the marker, all three sections are trimmed. The main text never holds the marker, and the unique section never holds `Ubicación:`, which is searched for only after the marker. |
| Descriptions.SplitRoundTrip | generate-yucatan-rag-v2.js:115-133 | `main + marker + unique + Ubicación: + location`, with no `¿` in `main` and no `U` in `unique`, splits back into the three parts, trimmed. |
| Descriptions.RagSectionsFound | generate-rag-html.js:83-94 | `extractUnique` is non-null iff the description is truthy and holds `¿Qué lo hace único?`. `extractLocation` is non-null iff it holds `Ubicación`. |
| Descriptions.RagSectionsClean | generate-rag-html.js:85-100 | The main description never holds the unique marker. The unique section never holds `Ubicación:`. |
| Descriptions.RagMainRoundTrip | generate-rag-html.js:97-104 | On a description laid out as main, marker, separator, unique, `Ubicación`, separator, location, the main description is `main`, trimmed. |
| Descriptions.RagUniqueRoundTrip | generate-rag-html.js:83-87 | On the same layout, `extractUnique` gives `unique`, trimmed: the run of `:` and blanks after the marker is skipped. |
| Descriptions.RagLocationRoundTrip | generate-rag-html.js:90-94 | On the same layout, `extractLocation` gives `location`, trimmed. |
| Descriptions.SkipColonSpace | generate-rag-html.js:85-92 | `[:\s]*` stops at the first character that is neither `:` nor a blank. |
| Slugs.SlugV2Shape | generate-yucatan-rag-v2.js:47 | The v2 slug holds only word characters and `-`, and never `--`. |
| Slugs.SlugScrapeShape | scrape.js:65-73 | The scrape slug holds only `a-z`, `0-9` and `-`. |
| Slugs.SlugV2Idempotent | generate-yucatan-rag-v2.js:47 | Slugifying a v2 slug again gives the same slug. |
| Slugs.SlugScrapeIdempotent | scrape.js:65-73 | Slugifying a scrape slug again gives the same slug. |
| Slugs.SlugifyV2OfSlug | generate-yucatan-rag-v2.js:47 | A text already shaped like a v2 slug is its own slug. |
| Slugs.SlugifyScrapeOfSlug | scrape.js:65-73 | A text of `a-z0-9-` is its own scrape slug. |
| Slugs.SlugsAgreeOnPlainTitle | scrape.js:65-73 | Both slugifiers turn `word word` into `word-word`. |
| Slugs.SpacedDash | scrape.js:65-73 | On `a - b`, the v2 slug collapses the hyphens to `a-b`. The scrape slug keeps `a---b`: scrape.js does not collapse hyphens. |
| Slugs.TrailingHyphen | scrape.js:70-72 | On `word !`, the v2 slug is `word-`, because it trims before removing symbols. The scrape slug is `word`, because it removes symbols before trimming. |
| Slugs.AccentFolded | generate-yucatan-rag-v2.js:47 | An accented `é` is folded to `e` by both slugifiers (NFD, then removal of combining marks). |
| Slugs.EmptyTitle | scrape.js:111 | An empty title gives the empty slug, with no fallback. |
| Slugs.CollapseHyphens | generate-yucatan-rag-v2.js:47 | `/--+/g → '-'` leaves no `--` and keeps the first character. |
| Slugs.StripMarks | generate-yucatan-rag-v2.js:47 | Removing U+0300–U+036F leaves no combining mark. |
| Slugs.KeepWordAndHyphen | generate-yucatan-rag-v2.js:47 | `/[^\w-]+/g → ''` leaves only word characters and `-`. |
| Slugs.KeepSlugAndSpace | scrape.js:70 | `/[^a-z0-9\s-]/g → ''` leaves only `a-z`, `0-9`, `-` and blanks. |
| Slugs.ReplaceSpaceRuns | scrape.js:72 | `/\s+/g → '-'` leaves no blank. |
| Yucatan.ChunksRejoin | generate-yucatan-rag-v2.js:31-32 | The text before the first article and the chunks, joined with the tag, give back the page. |
| Yucatan.ChunksOfJoin | generate-yucatan-rag-v2.js:31-33 | A page made of a preamble and chunks without the tag is split into exactly those chunks, one per `<article class="property"`, in order. |
| Yucatan.ChunkIdFallback | generate-yucatan-rag-v2.js:36-37 | Without `id="property-`, a chunk's id is its index. |
| Yucatan.ChunkIdRendered | generate-yucatan-rag-v2.js:36-37 | A chunk written with `id="property-N"` reads back id N (`parseInt` of the digits). |
| Yucatan.IdDigits | generate-yucatan-rag-v2.js:36 | The captured id is a run of digits. |
| Yucatan.ChunkTitle | generate-yucatan-rag-v2.js:40-41 | The title is trimmed. |
| Yucatan.FormatSplitsBack | generate-yucatan-rag-v2.js:93-102 | `formatSpecs` of a record without `\|` splits back on ` \| ` into the extras, then the labelled fields. It is `''` when there are none. |
| Yucatan.FormatSpecsParts | generate-yucatan-rag-v2.js:93-102 | The same for a raw spec line: the extras come first, in input order, then the fields. |
| Yucatan.SummaryParts | generate-yucatan-rag-v2.js:104-112 | When no token holds a comma, `makeSummary` splits back on `, ` into the labelled fields and nothing else: no extras. |
| Yucatan.SummarySplitsBack | generate-yucatan-rag-v2.js:104-112 | The same for a parsed record without commas. |
| Yucatan.SplitDesc | generate-yucatan-rag-v2.js:115-133 | The method with its reassigned `let`s computes `SplitDescription` of the input, whose properties are the `Descriptions` lemmas above. |
| Yucatan.FirstThree | generate-yucatan-rag-v2.js:143-145 | The three image slots hold `images[k]`, or `''` when that image is missing. |
| Yucatan.GalleryOf | generate-yucatan-rag-v2.js:147-149 | One `<img>` per image, in order, with alt text `title - Imagen n`, n counting from 1. |
| Yucatan.FieldDetail | generate-yucatan-rag-v2.js:151-157 | The detail spans of the labelled fields: at most four, each with a label. |
| Yucatan.ArticleFrame | generate-yucatan-rag-v2.js:136-213 | An article opens with its heading, has eight fixed sections with the main text eighth, and closes with the link to the site. |
| Yucatan.ArticleImageSlots | generate-yucatan-rag-v2.js:143-163 | The metadata holds the three slots (`''` for a missing image) and `images_count` equals the number of images. The quick reference repeats the slots. |
| Yucatan.ArticleGallery | generate-yucatan-rag-v2.js:147-149 | The article's gallery shows every image in order. |
| Yucatan.ArticleOptionalSections | generate-yucatan-rag-v2.js:200-210 | The unique block appears iff the unique section is non-empty, and likewise the location block. |
| Yucatan.BuildPage | generate-yucatan-rag-v2.js:229-230 | The page holds the articles in order, and its total is their number. |
| YucatanV2.ParseV6Articles | generate-yucatan-rag-v2.js:29-73 | The chunk loop computes one record per chunk, in order, numbered from 1. |
| YucatanV2.ParseChunk | generate-yucatan-rag-v2.js:33-70 | One turn of the loop computes the chunk's record. |
| YucatanV2.ParseImages | generate-yucatan-rag-v2.js:52-60 | The `src` loop inside `property-images` computes `ImagesOf(chunk)`. |
| YucatanV2.ImagesOf | generate-yucatan-rag-v2.js:52-60 | Every image is a non-empty `src` value without `"`. |
| YucatanV2.ChunkDesc | generate-yucatan-rag-v2.js:67-68 | The description is trimmed. It is the trimmed `<p>` group after `class="property-content"`. |
| Patterns.TrimmedGroup | generate-yucatan-rag-v2.js:67-68 | `m ? m[1].trim() : ''`: the group is trimmed, and the result is `''` when nothing matches. The titles and descriptions of all the scripts use this one definition. |
| YucatanV2.RecordShape | generate-yucatan-rag-v2.js:36-68 | A record's slug is `slugify(title)` and has the slug shape. Title and description are trimmed, and images are non-empty and free of `"`. Without `id="property-`, the id is the index. |
| YucatanV2.IdsRoundTrip | generate-yucatan-rag-v2.js:31-37 | A page of articles written with ids N₁…Nₖ parses back to records with exactly those ids, in order. |
| YucatanV2.ArticleOfFrame | generate-yucatan-rag-v2.js:136-213 | A record's article opens with its heading and closes with the link to its slug. |
| YucatanV2.GeneratedArticles | generate-yucatan-rag-v2.js:228-230 | The page has one article per chunk, in order, each headed by its record and closed by its link. |
| YucatanV1.ParseYucatanArticles | generate-yucatan-rag.js:29-55 | The chunk loop computes one record per chunk, in order. |
| YucatanV1.ParseChunk | generate-yucatan-rag.js:34-52 | One turn of the loop computes the chunk's record. |
| YucatanV1.ChunkHref | generate-yucatan-rag.js:41-42 | The href is `''` or a `https://demo.ceibaprime.mx…` URL without `"`. |
| YucatanV1.ChunkDesc | generate-yucatan-rag.js:45-46 | The description is trimmed. |
| YucatanV1.ListingSlugOfLink | generate-yucatan-rag.js:43 | The slug of `host + /listings/ + s` is `s`. |
| YucatanV1.RecordShape | generate-yucatan-rag.js:35-52 | Title and description are trimmed. The slug is `''` without an href. Without `id="property-`, the id is the index. |
| YucatanV1.Turn | generate-yucatan-rag.js:205 | The listing index `i % n` is below `n`. |
| YucatanV1.TurnIsRemainder | generate-yucatan-rag.js:205 | The cyclic assignment takes listing `i mod n`. |
| YucatanV1.ArticlesFor | generate-yucatan-rag.js:203-209 | There is one article per parsed record. |
| YucatanV1.GenerateOutcome | generate-yucatan-rag.js:203-209 | Generation fails exactly when there are articles and no listings: `i % 0` is `NaN`, `properties[NaN]` is `undefined`, and reading its fields throws a `TypeError`. Otherwise the page has one article per chunk. |
| YucatanV1.ArticleForFrame | generate-yucatan-rag.js:205-208 | Article k opens with its record's heading and closes with the link of listing `k % n` (the article itself is built by `buildArticle`, lines 99-191). |
| YucatanV1.CyclicListings | generate-yucatan-rag.js:205 | Article `k + n` links to the same listing as article k. |
| YucatanV1.OneListingEach | generate-yucatan-rag.js:205 | With at least as many listings as articles, article k links to listing k. |
| RagHtml.ParseSpecs | generate-rag-html.js:29-68 | Returns `{}` (`None`) for a missing or empty list. Otherwise it returns the no-flag parse of the trimmed items. |
| RagHtml.ParseSpecsOf | generate-rag-html.js:30 | The result is `{}` exactly for a missing or empty list. |
| RagHtml.FormatFaultsOnEmptySpecs | generate-rag-html.js:72-78 | `formatSpecsText` as written fails exactly on a missing or empty list, for which `parseSpecs` (line 30) returns `{}`. Everywhere else it agrees with the corrected version. |
| RagHtml.RagSplitsBack | generate-rag-html.js:73-79 | The formatted text of a record without `\|` splits back on ` \| ` into its parts. |
| RagHtml.FormatSpecsTextParts | generate-rag-html.js:71-80 | For `\|`-free items, `formatSpecsText` splits back into the labelled fields followed by the extras: extras last. |
| RagHtml.ExtrasPlacement | generate-rag-html.js:74-78 | With both fields and extras, the catalog text starts with a field. The Yucatán text of the same record starts with an extra. |
| RagHtml.TrimAllFreeOf | generate-rag-html.js:41 | Trimming items adds no character. |
| RagHtml.DetailOf | generate-rag-html.js:119-124 | The detail block lists at most the four labelled fields, never an extra. |
| RagHtml.LayoutShape | generate-rag-html.js:107-165 | An entry's article has 6 to 8 sections: title first, link last. The unique and location blocks appear only when truthy. |
| RagHtml.PropertyLayout | generate-rag-html.js:107-165 | The same for `propertyToHtml` of an entry, built with the corrected `formatSpecsText` (see Findings): the specs detail holds only labelled fields, and the link is `BASE_URL/slug`. |
| RagHtml.BuildHtml | generate-rag-html.js:168-200 | The corrected page builder (see Findings): one article per entry, in input order. The total shown equals the number of entries. |
| RagHtml.BuildHtmlFaultsOnEmptySpecs | generate-rag-html.js:168-170 | `buildHtml` as written fails exactly when some entry has a missing or empty spec list. Otherwise it builds the same page as the corrected builder. |
| RagHtml.ArticleFaults | generate-rag-html.js:107-109 | `propertyToHtml` as written fails exactly on an entry without specs, and otherwise gives the corrected article. |
| Scrape.ExtractArticles | scrape.js:26-34 | The `exec` loop computes `Articles(html)`: every match of the article pattern, in order. |
| Scrape.ArticlesInOrder | scrape.js:28-31 | The matches do not overlap and come in document order. |
| Scrape.ArticlesWellFormed | scrape.js:28 | Every `num` is a non-empty digit string, and every body is free of `</article>`: it stops at the first one. |
| Scrape.ExtractRendered | scrape.js:26-34 | A page of gaps and articles, with no article tag in the gaps, gives back exactly those articles. |
| Scrape.FirstArticle | scrape.js:28-30 | From the end of one article, the next match is the next written article. |
| Scrape.ParseImages | scrape.js:48-56 | The `exec` loop computes `Images(body)`: every `<img src="…">` in order. |
| Scrape.ImagesShape | scrape.js:50 | Every image is a non-empty URL without `"`. |
| Scrape.ImagesRendered | scrape.js:48-56 | A block of `<img src="u">` tags between text without `<img` gives back exactly those URLs. |
| Scrape.GetInner | scrape.js:36-42 | The result is trimmed, and `''` when nothing matches. |
| Scrape.InnerOfElement | scrape.js:36-42 | For `<tag attrs>inner</tag>…`, with the class present when asked for, the result is `inner`, trimmed. |
| Scrape.RemoveTagsLeavesNoTag | scrape.js:45 | After `/<[^>]+>/g → ''`, no tag remains. |
| Scrape.RemoveTagsIdempotent | scrape.js:45 | Removing tags twice is removing them once. |
| Scrape.TagRemoved | scrape.js:45 | `<inner>` followed by text is removed whole. |
| Scrape.StripTags | scrape.js:44-46 | The result is trimmed. |
| Scrape.StripTagsOfText | scrape.js:44-46 | Text without `<` or `&` is only trimmed. |
| Scrape.AmpersandDecodedFirst | scrape.js:45 | `&amp;nbsp;` becomes a blank: `&amp;` is decoded before `&nbsp;`. |
| Scrape.OriginalUrl | scrape.js:75-78 | The result is `''` or a `https://www.vivla.com…` URL without `"`. |
| Scrape.OriginalUrlOfLink | scrape.js:75-78 | For `href="url"` with a vivla URL, the result is that URL. |
| Scrape.OriginalUrlAbsent | scrape.js:75-78 | Without a vivla href, the result is `''`. |
| Scrape.Title | scrape.js:86-87 | The title is trimmed. |
| Scrape.SectionText | scrape.js:94-104 | The specs line and the description are trimmed. |
| Scrape.AssembleProperty | scrape.js:84-117 | The `map` callback computes `PropertyOf(article)`. |
| Scrape.PropertyShape | scrape.js:84-117 | The id is the captured digits, and the slug holds only `a-z0-9-`. Title and description are trimmed. Every spec token is non-empty, trimmed and free of `\|`. Every image is a non-empty URL. |
| Scrape.UntitledArticle | scrape.js:86-87 | An article without `<h2>` has an empty title, and so an empty slug (`slugify` at line 111). |
| Scrape.ScrapeProperties | scrape.js:81-118 | The records are the assembled properties of the articles, in order. |
| Extract.ExtractAll | extract.js:14-69 | The main loop computes one record per article of the original page, in order. The updated page is the original after the splices of those records, applied in order. |
| Extract.ParseRecord | extract.js:19-48 | One turn computes the article's record. |
| Extract.RecordShape | extract.js:22-47 | The id is the captured number. The slug is the `Referencia:` value, or `property-<id>`. `originalUrl` is the listings base plus the slug. Spec tokens are non-empty and trimmed. The location is on one line, has no `.`, and is trimmed. |
| Extract.TitleOf | extract.js:22 | The title lies on one line. |
| Extract.SpecsTextOf | extract.js:24 | The specs text has its newlines removed and is trimmed. |
| Extract.DescriptionOf | extract.js:25 | The description is trimmed. |
| Extract.LocationOf | extract.js:28-29 | The location is trimmed, on one line, and free of `.`. |
| Extract.ImagesIn | extract.js:31-35 | One image per `<img src alt>` match, in order. |
| Extract.ParseImages | extract.js:31-35 | The inner `exec` loop computes `ImagesIn(body)`. |
| Extract.Properties | extract.js:18-39 | One record per article match of the original page, in order. |
| Extract.SpliceSkips | extract.js:51-59 | Without a location, or when the article's opening tag is not in the page, the page is unchanged. |
| Extract.SpliceFrame | extract.js:57-66 | The text before the article's opening tag and after its closing `</article>` is kept. In between, only the first link is replaced. |
| Extract.SpliceTextClosed | extract.js:60-66 | The reassembled page is the prefix, the rewritten range and the suffix. |
| Extract.SpliceWithoutLink | extract.js:53-64 | An article with no matching link is left unchanged. |
| Extract.ReplaceFirstMatch | extract.js:64 | `String.replace` with a pattern changes only the first match and keeps the text around it. |
| Extract.NewLinkNotRelinked | extract.js:52-63 | A new link whose href is a location (not a listing URL, not `#`) is not matched again by the link pattern. |
| Extract.RewriteWithoutLocations | extract.js:51 | When no record has a location, the page is unchanged. |
| Extract.ExpandMatched | extract.js:64 | `$&` in the replacement inserts the matched text. |
| Extract.ExpandLiteral | extract.js:63-64 | A replacement without `$` is inserted literally. |
| PropertyCard.FindPrice | src/components/PropertyCard.tsx:144 | `find`: the index of the first spec containing `Precio`; no earlier spec contains it. |
| PropertyCard.Price | src/components/PropertyCard.tsx:144 | The price is never empty. It is `Consultar` when no spec contains `Precio`. |
| PropertyCard.PriceOfFirst | src/components/PropertyCard.tsx:144 | When the first spec with `Precio` is `Precio: X` with X non-empty, the price is X. |
| PropertyCard.RawSpecs | src/components/PropertyCard.tsx:147 | `rawSpecs` keeps exactly the specs without `Precio` and other than `VENDIDO`. |
| PropertyCard.RawSpecsAppend | src/components/PropertyCard.tsx:147 | The filter keeps the input order: it distributes over concatenation. |
| PropertyCard.KeySpecs | src/components/PropertyCard.tsx:148-153 | The `i += 2` loop computes `Pairs(rawSpecs)`. |
| PropertyCard.Pairs | src/components/PropertyCard.tsx:148-153 | Every pair has a non-empty label. |
| PropertyCard.PairsBound | src/components/PropertyCard.tsx:148-153 | There are at most `len/2` pairs. |
| PropertyCard.PairsOfFull | src/components/PropertyCard.tsx:148-153 | With no empty token, pair k is `(raw[2k], raw[2k+1])` and there are `len/2` pairs: a trailing token is dropped. |
| PropertyCard.PairsFrom | src/components/PropertyCard.tsx:148-153 | Every value and label comes from the tokens. |
| PropertyCard.Shown | src/components/PropertyCard.tsx:283 | At most three pairs are shown: the first ones. |
| PropertyCard.Thumb | src/components/PropertyCard.tsx:157-159 | A thumbnail slot is shown iff that image exists and is non-empty. |
| PropertyCard.Badge | src/components/PropertyCard.tsx:245-262 | The `+N` badge shows iff a third picture exists and there are more than three, with N = `len − 3` (`images.length - 3`, line 160). |
| PropertyCard.Render | src/components/PropertyCard.tsx:144-304 | The card is sold iff some spec is exactly `VENDIDO`. At most three pairs are shown, none holding a price or `VENDIDO`. The strip shows iff the second or third picture exists. The link is `/slug`. |
| PropertyCard.ModalNext | src/components/PropertyCard.tsx:26 | `(i + 1) % len` stays in range. |
| PropertyCard.ModalPrev | src/components/PropertyCard.tsx:25 | `(i − 1 + len) % len` stays in range. |
| PropertyCard.ModalInverse | src/components/PropertyCard.tsx:25-26 | The modal's `prev` and `next` undo each other. |
| PropertyCard.ModalStepsAsGallery | src/components/PropertyCard.tsx:25-26 | The modal's modular steps equal the gallery's explicit wrap-around steps. |
| PropertyCard.ImageModal.constructor | src/components/PropertyCard.tsx:23 | `active` starts at the initial index. |
| PropertyCard.ImageModal.Prev | src/components/PropertyCard.tsx:25 | `active` becomes `ModalPrev(active)` and stays in range. |
| PropertyCard.ImageModal.Next | src/components/PropertyCard.tsx:26 | `active` becomes `ModalNext(active)` and stays in range. |
| PropertyCard.ImageModal.Select | src/components/PropertyCard.tsx:121 | Clicking thumbnail i sets `active` to i. |
| PropertyCard.ImageModal.Current | src/components/PropertyCard.tsx:72-73 | The main image is `images[active]`, and the counter (line 109) shows exactly `active+1` of `len`. |
| PropertyCard.Card.constructor | src/components/PropertyCard.tsx:141-142 | The modal starts closed, at index 0. |
| PropertyCard.Card.ClickPicture | src/components/PropertyCard.tsx:162-167 | Clicking picture k (0, 1 or 2; the click handlers at lines 187, 226-228 and 245-247) opens the modal at k only when that picture exists. Otherwise nothing changes. |
| PropertyCard.Card.Close | src/components/PropertyCard.tsx:176 | Closing clears `modalOpen` and keeps the index. |
| PropertyCard.Card.OpenViewer | src/components/PropertyCard.tsx:171-178 | The open modal is a fresh viewer over the card's images, at the chosen index. |
| ImageGallery.NextIndex | src/components/ImageGallery.tsx:15 | `next` stays in range and wraps to 0 exactly from `len−1`. |
| ImageGallery.PrevIndex | src/components/ImageGallery.tsx:14 | `prev` stays in range and wraps to `len−1` exactly from 0. |
| ImageGallery.StepsInverse | src/components/ImageGallery.tsx:14-15 | `prev(next(i)) = i` and `next(prev(i)) = i`. |
| ImageGallery.AdvanceSplit | src/components/ImageGallery.tsx:15 | `a + b` presses of `next` are `a` presses, then `b` presses. |
| ImageGallery.AdvanceWithin | src/components/ImageGallery.tsx:15 | Short of the end, k presses of `next` move k places. |
| ImageGallery.FullTurn | src/components/ImageGallery.tsx:15 | `len` presses of `next` come back to the start. |
| ImageGallery.Strip | src/components/ImageGallery.tsx:75-85 | One thumbnail per image, in order, highlighted iff it is the active one. |
| ImageGallery.Gallery.constructor | src/components/ImageGallery.tsx:10 | `active` starts at 0. |
| ImageGallery.Gallery.Prev | src/components/ImageGallery.tsx:14 | `active` becomes `PrevIndex(active)`, and the invariant `0 ≤ active < len` is kept. |
| ImageGallery.Gallery.Next | src/components/ImageGallery.tsx:15 | `active` becomes `NextIndex(active)`, and the invariant is kept. |
| ImageGallery.Gallery.Select | src/components/ImageGallery.tsx:78 | Clicking thumbnail i sets `active` to i. |
| ImageGallery.Gallery.Render | src/components/ImageGallery.tsx:12-85 | Nothing is shown for no images. Otherwise the main image is `images[active]`, the counter is `active+1` of `len`, and arrows and strip show iff there is more than one image. |
| Patterns.ExecAll | scrape.js:50-54 | The generic `g`-flag `exec` loop collects the first group of every match, in order. |
| Patterns.AllFromOrdered | scrape.js:28-31 | Successive matches of an `exec` loop do not overlap. |
| Patterns.AllFromComplete | scrape.js:28-31 | No match starts in text the loop skipped over: the loop finds every match. |
| Patterns.AllFromMatches | scrape.js:28-31 | Every collected hit is a match at its position. |
| Patterns.FirstFrom | scrape.js:40 | `match` without `g` finds the first match from a position, and none before it. |
| Patterns.ArticleAt | scrape.js:28 | An article match is `<article class="property" id="property-` + digits + `">` + a body without `</article>` + `</article>`. |
| Patterns.SpecsLineAt | generate-yucatan-rag-v2.js:63 | The captured spec line is trimmed (`\s*` on both sides). |
| Patterns.UntilDotAt | extract.js:28 | The captured location lies on one line and holds no `.`. |
| Patterns.ReferenceAt | extract.js:9 | The reference is a non-empty run of word characters and `-`. |
| Patterns.BlockAt | generate-yucatan-rag-v2.js:52 | A lazy block capture stops before the first closing text. |
| Patterns.LinkAt | extract.js:53 | A link match starts at `<a href="` and captures no group. |
| Text.IndexOf | generate-yucatan-rag-v2.js:120 | `indexOf` is `-1` (`None`) iff the text does not occur. Otherwise it is the first occurrence. |
| Text.Trim | generate-yucatan-rag-v2.js:122 | `trim` leaves no blank at either end. |
| Text.TrimIdempotent | generate-yucatan-rag-v2.js:122 | Trimming twice is trimming once. |
| Text.JoinSplit | generate-yucatan-rag-v2.js:31 | Splitting on a separator and joining with it gives the text back. |
| Text.SplitJoin | generate-yucatan-rag-v2.js:101 | Joining parts that lack a character of the separator and splitting again gives the parts back. |
| Text.ReplaceFirst | generate-yucatan-rag-v2.js:82 | `replace` with a string leaves a text without the pattern unchanged. Otherwise it replaces exactly the occurrence at `IndexOf`, which is the first one, since `IndexOf` guarantees no occurrence starts before it. |
| Text.ReplaceAllIsSplitJoin | scrape.js:45 | A global replace of a text equals split-then-join. |
| Text.DecimalRoundTrip | generate-yucatan-rag-v2.js:37 | `parseInt` of the decimal text of n is n. |

## Left out

- File and process I/O is outside the model: `readFileSync`, `writeFileSync`, `mkdirSync`, `existsSync`, `statSync`, `process.argv` and `process.exit`. Pages and listing files are inputs, and generated pages are values.
- Console logging, the regex reference counts and the KB size (a floating-point `toFixed`) are not modelled.
- `new Date().toISOString()` is a parameter (`updated`) of the page builders.
- CSS, literal stylesheet and template text are outside the model. Articles are sequences of sections, in the order the templates write them, with the values they interpolate.
- React hooks, `useEffect` keyboard listeners, the `document.body.style` change, event propagation and JSX styling are outside the model. The state they update is a class.
- The Next.js pages (src/app) are not part of this model: they only map data onto cards.
- Slugs.StripMarks: NFD decomposition is modelled only for the lower-case Latin-1 letters (`à`–`ÿ`), which are folded to their base letter. Other precomposed characters are kept as they are.
- Text.Lower: `toLowerCase` is modelled on ASCII and on the Latin-1 capitals `À`–`Þ`. Other characters are kept.
- Descriptions.RagSectionsFound: the `i` flag of the two catalog extractors' regular expressions is not modelled. Matching is case-sensitive. The `s` flag is modelled: `.` matches newlines there.
- Extract.ReplaceFirstMatch: replacement patterns other than `$$`, `$&`, `` $` `` and `$'` are inserted literally. The new link never holds `$` unless the location does.
- Extract.SpliceFrame: when no `</article>` follows the opening tag, the source's `-1 + 10` end index (9) is kept as written, through `JsSubstring`. It is not proved to be harmless.
- Extract.NewLinkNotRelinked: the re-run behaviour is stated for one rewritten link, not for a second run of the whole script over its own output.
- Text.DecimalRoundTrip: `parseInt` is modelled as exact for any number of digits. JavaScript numbers lose precision above 2^53, so an id with more than 15 digits may not read back exactly in the source.
- Yucatan.ChunkIdRendered: the same unbounded-integer reading of `parseInt` as Text.DecimalRoundTrip, so the read-back is only faithful for ids up to 2^53.
- The preview at scrape.js:128-134 reads `properties[0]` after `properties.json` is written, and throws on a page with no articles. It only logs to the console, so it is not modelled; the records written are unaffected.
- RagHtml.ParseSpecs: items are strings. A non-string item of the listings file, on which `.trim()` would throw, is not modelled.

## Findings

| source | as written | input that shows it | evidently intended | confidence | as-written member | corrected member |
|---|---|---|---|---|---|---|
| generate-rag-html.js:72-78 | `parseSpecs` returns `{}` for a missing or empty spec list, and `formatSpecsText` then reads `parsed.extras.length` of an undefined `extras`, which throws. `buildHtml` then fails as a whole (lines 168-170) | an entry with `specs: []` or without `specs` | no specs give an empty spec text | not executed | RagHtml.FormatSpecsTextAsWritten; RagHtml.FormatFaultsOnEmptySpecs; RagHtml.BuildHtmlAsWritten; RagHtml.BuildHtmlFaultsOnEmptySpecs | RagHtml.FormatSpecsText; RagHtml.BuildHtml |
