/**
 * scrape.js: reading a catalog page back into property records. The
 * article blocks are collected by the `exec` loop of a global pattern; each
 * field comes from the first match of a smaller pattern inside the block;
 * the text of a field has its tags removed, two entities decoded and its
 * ends trimmed.
 */
module Scrape {
  import opened Text
  import opened Patterns
  import SpecTokens
  import Slugs

  // Articles

  /** One article block: the digits after `property-` and the text between
      the opening tag and the first `</article>` after it. */
  datatype RawArticle = RawArticle(num: string, body: string)

  /** What the article pattern can capture: a non-empty run of digits and
      a body in which `</article>` does not occur. */
  predicate WellFormed(a: RawArticle) {
    a.num != [] && AllIn(a.num, Digits) && !Contains(a.body, ArticleClose)
  }

  /** Every hit has the two groups of the article pattern. */
  predicate Pairs(hits: seq<Hit>) {
    forall k :: 0 <= k < |hits| ==> |hits[k].groups| == 2
  }

  function ArticlesOf(hits: seq<Hit>): (r: seq<RawArticle>)
    requires Pairs(hits)
    ensures |r| == |hits|
    ensures forall k :: 0 <= k < |hits| ==> r[k] == RawArticle(hits[k].groups[0], hits[k].groups[1])
  {
    if hits == [] then [] else [RawArticle(hits[0].groups[0], hits[0].groups[1])] + ArticlesOf(hits[1..])
  }

  /** The articles of `html`, in document order. */
  function Articles(html: string): seq<RawArticle> {
    AllFromGroups(Article, html, 0, 2);
    ArticlesOf(All(Article, html))
  }

  /** Every extracted article has a digit run for its number and a body
      that stops before the first `</article>`. */
  lemma ArticlesWellFormed(html: string)
    ensures forall k :: 0 <= k < |Articles(html)| ==> WellFormed(Articles(html)[k])
  {
    AllFromMatches(Article, html, 0);
    AllFromGroups(Article, html, 0, 2);
  }

  /** `extractArticles` (scrape.js), and the same loop at the head of
      extract.js: `exec` the global article pattern until it fails,
      collecting the two groups of every match. */
  method ExtractArticles(html: string) returns (articles: seq<RawArticle>)
    ensures articles == Articles(html)
  {
    AllFromGroups(Article, html, 0, 2);
    articles := [];
    var last: nat := 0;
    var m := FirstFrom(Article, html, last);
    ghost var todo := All(Article, html);
    while m.Some?
      invariant last <= |html| && m == FirstFrom(Article, html, last)
      invariant todo == AllFrom(Article, html, last) && Pairs(todo)
      invariant articles + ArticlesOf(todo) == Articles(html)
      decreases |html| + 1 - last
    {
      var h := m.value;
      ArticleStep(html, last, h);
      var next := RawArticle(h.groups[0], h.groups[1]);
      assert articles + ArticlesOf(todo) == (articles + [next]) + ArticlesOf(AllFrom(Article, html, h.end));
      articles := articles + [next];
      last := h.end;
      todo := AllFrom(Article, html, last);
      m := FirstFrom(Article, html, last);
    }
    LoopDone(Article, html, last);
  }

  /** One turn of the extraction loop. */
  lemma ArticleStep(html: string, last: nat, h: Hit)
    requires last <= |html| && FirstFrom(Article, html, last) == Some(h)
    ensures last < h.end <= |html| && |h.groups| == 2
    ensures Pairs(AllFrom(Article, html, last)) && Pairs(AllFrom(Article, html, h.end))
    ensures ArticlesOf(AllFrom(Article, html, last)) ==
      [RawArticle(h.groups[0], h.groups[1])] + ArticlesOf(AllFrom(Article, html, h.end))
  {
    AllFromGroups(Article, html, last, 2);
    AllFromGroups(Article, html, h.end, 2);
    var rest := AllFrom(Article, html, h.end);
    AllFromStep(Article, html, last, h);
    assert ([h] + rest)[1..] == rest;
  }

  /** The article blocks follow one another: each begins at or after the
      end of the one before. */
  lemma ArticlesInOrder(html: string)
    ensures forall k :: 0 <= k < |All(Article, html)| - 1 ==>
      All(Article, html)[k].end <= All(Article, html)[k + 1].start
  {
    AllFromOrdered(Article, html, 0);
    AllFromMatches(Article, html, 0);
  }

  /** The text of an article block. */
  function ArticleHtml(a: RawArticle): string {
    ArticleOpen + a.num + "\">" + a.body + ArticleClose
  }

  /** A page made of article blocks, each after a stretch of other text,
      and a closing stretch. */
  function Document(gaps: seq<string>, items: seq<RawArticle>, tail: string): string
    requires |gaps| == |items|
    decreases |items|
  {
    if items == [] then tail else gaps[0] + ArticleHtml(items[0]) + Document(gaps[1..], items[1..], tail)
  }

  /** Extraction inverts rendering: from a page of well-formed article
      blocks separated by text that opens no article, the extractor reads
      back exactly those articles, in order. */
  lemma ExtractRendered(gaps: seq<string>, items: seq<RawArticle>, tail: string)
    requires |gaps| == |items|
    requires forall k :: 0 <= k < |items| ==> WellFormed(items[k]) && !Contains(gaps[k], ArticleOpen)
    requires !Contains(tail, ArticleOpen)
    ensures Articles(Document(gaps, items, tail)) == items
  {
    var s := Document(gaps, items, tail);
    AllFromDocument(s, 0, gaps, items, tail);
  }

  lemma {:induction false} AllFromDocument(s: string, i: nat, gaps: seq<string>, items: seq<RawArticle>, tail: string)
    requires |gaps| == |items|
    requires forall k :: 0 <= k < |items| ==> WellFormed(items[k]) && !Contains(gaps[k], ArticleOpen)
    requires !Contains(tail, ArticleOpen)
    requires i <= |s| && s[i..] == Document(gaps, items, tail)
    ensures |AllFrom(Article, s, i)| == |items|
    ensures forall k :: 0 <= k < |items| ==> AllFrom(Article, s, i)[k].groups == [items[k].num, items[k].body]
    decreases |items|
  {
    if items == [] {
      NoArticleInTail(s, i, tail);
    } else {
      var g, a := gaps[0], items[0];
      var e := i + |g| + |ArticleHtml(a)|;
      DocumentHead(s, i, gaps, items, tail);
      DocumentStep(s, i, g, a, e);
      AllFromDocument(s, e, gaps[1..], items[1..], tail);
      var rest := AllFrom(Article, s, e);
      forall k | 0 <= k < |items| ensures AllFrom(Article, s, i)[k].groups == [items[k].num, items[k].body] {
        if k > 0 {
          assert AllFrom(Article, s, i)[k] == rest[k - 1];
        }
      }
    }
  }

  lemma DocumentStep(s: string, i: nat, g: string, a: RawArticle, e: nat)
    requires OccursAt(s, g, i) && !Contains(g, ArticleOpen)
    requires OccursAt(s, ArticleHtml(a), i + |g|) && WellFormed(a)
    requires e == i + |g| + |ArticleHtml(a)|
    ensures AllFrom(Article, s, i) == [Hit(i + |g|, e, [a.num, a.body])] + AllFrom(Article, s, e)
  {
    FirstArticle(s, i, g, a);
    AllFromStep(Article, s, i, Hit(i + |g|, e, [a.num, a.body]));
  }

  lemma DocumentHead(s: string, i: nat, gaps: seq<string>, items: seq<RawArticle>, tail: string)
    requires |gaps| == |items| > 0
    requires i <= |s| && s[i..] == Document(gaps, items, tail)
    ensures OccursAt(s, gaps[0], i) && OccursAt(s, ArticleHtml(items[0]), i + |gaps[0]|)
    ensures i + |gaps[0]| + |ArticleHtml(items[0])| <= |s|
    ensures s[i + |gaps[0]| + |ArticleHtml(items[0])|..] == Document(gaps[1..], items[1..], tail)
  {
    var head := gaps[0] + ArticleHtml(items[0]);
    var rest := Document(gaps[1..], items[1..], tail);
    assert s[i..] == head + rest;
    assert s[i..i + |head|] == s[i..][..|head|] == head;
    assert s[i + |head|..] == s[i..][|head|..] == rest;
    OccursSplit(s, gaps[0], ArticleHtml(items[0]), i);
  }

  lemma NoArticleInTail(s: string, i: nat, tail: string)
    requires i <= |s| && s[i..] == tail && !Contains(tail, ArticleOpen)
    ensures AllFrom(Article, s, i) == []
  {
    NotContainsSuffix(s, ArticleOpen, i);
    forall j | i <= j ensures MatchAt(Article, s, j).None? {
      NoOpenNoArticle(s, j);
    }
  }

  lemma NoOpenNoArticle(s: string, j: nat)
    requires !OccursAt(s, ArticleOpen, j)
    ensures MatchAt(Article, s, j).None?
  {
  }

  /** '<' opens both article tags and occurs nowhere else in them. */
  lemma TagsOpenOnce()
    ensures forall d :: 0 < d < |ArticleOpen| ==> ArticleOpen[d] != ArticleOpen[0]
    ensures forall d :: 0 < d < |ArticleClose| ==> ArticleClose[d] != ArticleClose[0]
  {
  }

  /** After a stretch that opens no article, the first match is the
      article block that follows it. */
  lemma FirstArticle(s: string, i: nat, g: string, a: RawArticle)
    requires OccursAt(s, g, i) && !Contains(g, ArticleOpen)
    requires OccursAt(s, ArticleHtml(a), i + |g|) && WellFormed(a)
    ensures FirstFrom(Article, s, i) == Some(Hit(i + |g|, i + |g| + |ArticleHtml(a)|, [a.num, a.body]))
  {
    var x := i + |g|;
    assert ArticleHtml(a)[0] == ArticleOpen[0] == '<';
    assert s[x] == s[x..x + |ArticleHtml(a)|][0] == '<';
    TagsOpenOnce();
    GapBlocks(s, ArticleOpen, i, g);
    forall j | i <= j < x ensures MatchAt(Article, s, j).None? {
      NoOpenNoArticle(s, j);
    }
    ArticleAtRendered(s, x, a);
    FirstFromIs(Article, s, i, x);
  }

  /** The article pattern matches a rendered block in full. */
  lemma ArticleAtRendered(s: string, x: nat, a: RawArticle)
    requires OccursAt(s, ArticleHtml(a), x) && WellFormed(a)
    ensures ArticleAt(s, x) == Some(Hit(x, x + |ArticleHtml(a)|, [a.num, a.body]))
  {
    var p := x + |ArticleOpen|;
    var b := p + |a.num| + 2;
    var c := b + |a.body|;
    ArticleLayout(s, x, a);
    SpanIs(s, p, Digits, |a.num|);
    TagsOpenOnce();
    IndexAfterGap(s, ArticleClose, b, a.body);
    ArticleAtIs(s, x, |a.num|, c);
    assert s[b..c] == a.body;
    assert |ArticleHtml(a)| == |ArticleOpen| + |a.num| + 2 + |a.body| + |ArticleClose|;
  }

  /** The article pattern, once its pieces have been found. */
  lemma ArticleAtIs(s: string, x: nat, n: nat, c: nat)
    requires OccursAt(s, ArticleOpen, x)
    requires n > 0 && Span(s, x + |ArticleOpen|, Digits) == n
    requires OccursAt(s, "\">", x + |ArticleOpen| + n)
    requires IndexOfFrom(s, ArticleClose, x + |ArticleOpen| + n + 2) == Some(c)
    ensures ArticleAt(s, x) == Some(Hit(x, c + |ArticleClose|,
      [s[x + |ArticleOpen|..x + |ArticleOpen| + n], s[x + |ArticleOpen| + n + 2..c]]))
  {
  }

  /** Where the parts of a rendered block stand. */
  lemma ArticleLayout(s: string, x: nat, a: RawArticle)
    requires OccursAt(s, ArticleHtml(a), x)
    ensures OccursAt(s, ArticleOpen, x)
    ensures s[x + |ArticleOpen|..x + |ArticleOpen| + |a.num|] == a.num
    ensures OccursAt(s, "\">", x + |ArticleOpen| + |a.num|)
    ensures s[x + |ArticleOpen| + |a.num|] == '"'
    ensures OccursAt(s, a.body, x + |ArticleOpen| + |a.num| + 2)
    ensures OccursAt(s, ArticleClose, x + |ArticleOpen| + |a.num| + 2 + |a.body|)
    ensures s[x + |ArticleOpen| + |a.num| + 2 + |a.body|] == '<'
  {
    var q := x + |ArticleOpen| + |a.num|;
    var c := q + 2 + |a.body|;
    OccursSplit(s, ArticleOpen + a.num + "\">" + a.body, ArticleClose, x);
    OccursSplit(s, ArticleOpen + a.num + "\">", a.body, x);
    OccursSplit(s, ArticleOpen + a.num, "\">", x);
    OccursSplit(s, ArticleOpen, a.num, x);
    assert s[q] == s[q..q + 2][0] == '"';
    assert s[c] == s[c..c + |ArticleClose|][0] == '<';
  }

  // Images

  /** The `src` of every `<img src="…">` in `body`, in document order. */
  function Images(body: string): seq<string> {
    AllFromGroups(ImgSrc, body, 0, 1);
    Captures(All(ImgSrc, body), 0)
  }

  /** Every image source is non-empty and free of quotes. */
  lemma ImagesShape(body: string)
    ensures forall k :: 0 <= k < |Images(body)| ==> Images(body)[k] != [] && '"' !in Images(body)[k]
  {
    AllFromMatches(ImgSrc, body, 0);
    AllFromGroups(ImgSrc, body, 0, 1);
    forall k | 0 <= k < |Images(body)| ensures Images(body)[k] != [] && '"' !in Images(body)[k] {
      var h := All(ImgSrc, body)[k];
      assert MatchAt(ImgSrc, body, h.start) == Some(h);
      NoQuoteIn(h.groups[0]);
    }
  }

  /** `parseImages`: `exec` the global image pattern until it fails,
      collecting the source of every match. */
  method ParseImages(body: string) returns (imgs: seq<string>)
    ensures imgs == Images(body)
  {
    imgs := ExecAll(ImgSrc, 1, body);
  }

  /** The opening of an image tag as the catalog writes it. */
  function ImgHtml(url: string): string {
    "<img src=\"" + url + "\""
  }

  /** A stretch of markup with an image tag after each gap. */
  function ImageDocument(gaps: seq<string>, urls: seq<string>, tail: string): string
    requires |gaps| == |urls|
    decreases |urls|
  {
    if urls == [] then tail else gaps[0] + ImgHtml(urls[0]) + ImageDocument(gaps[1..], urls[1..], tail)
  }

  /** Reading the images back: from markup whose image tags carry
      non-empty, quote-free sources and whose other text opens no `<img`,
      the sources come back in order. */
  lemma ImagesRendered(gaps: seq<string>, urls: seq<string>, tail: string)
    requires |gaps| == |urls|
    requires forall k :: 0 <= k < |urls| ==> urls[k] != [] && '"' !in urls[k] && !Contains(gaps[k], "<img")
    requires !Contains(tail, "<img")
    ensures Images(ImageDocument(gaps, urls, tail)) == urls
  {
    var s := ImageDocument(gaps, urls, tail);
    AllFromImages(s, 0, gaps, urls, tail);
  }

  lemma {:induction false} AllFromImages(s: string, i: nat, gaps: seq<string>, urls: seq<string>, tail: string)
    requires |gaps| == |urls|
    requires forall k :: 0 <= k < |urls| ==> urls[k] != [] && '"' !in urls[k] && !Contains(gaps[k], "<img")
    requires !Contains(tail, "<img")
    requires i <= |s| && s[i..] == ImageDocument(gaps, urls, tail)
    ensures |AllFrom(ImgSrc, s, i)| == |urls|
    ensures forall k :: 0 <= k < |urls| ==> AllFrom(ImgSrc, s, i)[k].groups == [urls[k]]
    decreases |urls|
  {
    if urls == [] {
      NoImagesIn(s, i, tail);
    } else {
      var g, u := gaps[0], urls[0];
      var e := i + |g| + |ImgHtml(u)|;
      ImageDocumentHead(s, i, gaps, urls, tail);
      ImageDocumentStep(s, i, g, u, e);
      AllFromImages(s, e, gaps[1..], urls[1..], tail);
      var rest := AllFrom(ImgSrc, s, e);
      forall k | 0 <= k < |urls| ensures AllFrom(ImgSrc, s, i)[k].groups == [urls[k]] {
        if k > 0 {
          assert AllFrom(ImgSrc, s, i)[k] == rest[k - 1];
        }
      }
    }
  }

  /** Text that opens no `<img` holds no image. */
  lemma NoImagesIn(s: string, i: nat, tail: string)
    requires !Contains(tail, "<img")
    requires i <= |s| && s[i..] == tail
    ensures AllFrom(ImgSrc, s, i) == []
  {
    NotContainsSuffix(s, "<img", i);
    forall j | i <= j ensures MatchAt(ImgSrc, s, j).None? {
      NoOpenNoImage(s, j);
    }
    assert FirstFrom(ImgSrc, s, i).None?;
  }

  lemma NoOpenNoImage(s: string, j: nat)
    requires !OccursAt(s, "<img", j)
    ensures MatchAt(ImgSrc, s, j).None?
  {
  }

  lemma ImageDocumentHead(s: string, i: nat, gaps: seq<string>, urls: seq<string>, tail: string)
    requires |gaps| == |urls| > 0
    requires i <= |s| && s[i..] == ImageDocument(gaps, urls, tail)
    ensures OccursAt(s, gaps[0], i) && OccursAt(s, ImgHtml(urls[0]), i + |gaps[0]|)
    ensures i + |gaps[0]| + |ImgHtml(urls[0])| <= |s|
    ensures s[i + |gaps[0]| + |ImgHtml(urls[0])|..] == ImageDocument(gaps[1..], urls[1..], tail)
  {
    var head := gaps[0] + ImgHtml(urls[0]);
    var rest := ImageDocument(gaps[1..], urls[1..], tail);
    assert s[i..] == head + rest;
    assert s[i..i + |head|] == s[i..][..|head|] == head;
    assert s[i + |head|..] == s[i..][|head|..] == rest;
    OccursSplit(s, gaps[0], ImgHtml(urls[0]), i);
  }

  lemma ImageDocumentStep(s: string, i: nat, g: string, u: string, e: nat)
    requires OccursAt(s, g, i) && !Contains(g, "<img")
    requires OccursAt(s, ImgHtml(u), i + |g|) && u != [] && '"' !in u
    requires e == i + |g| + |ImgHtml(u)|
    ensures AllFrom(ImgSrc, s, i) == [Hit(i + |g|, e, [u])] + AllFrom(ImgSrc, s, e)
  {
    var x := i + |g|;
    assert ImgHtml(u)[0] == '<';
    assert s[x] == s[x..x + |ImgHtml(u)|][0] == '<';
    GapBlocks(s, "<img", i, g);
    forall j | i <= j < x ensures MatchAt(ImgSrc, s, j).None? {
      NoOpenNoImage(s, j);
    }
    ImgSrcAtRendered(s, x, u, e);
    FirstFromIs(ImgSrc, s, i, x);
    AllFromStep(ImgSrc, s, i, Hit(x, e, [u]));
  }

  /** The image pattern matches a rendered image tag. */
  lemma ImgSrcAtRendered(s: string, x: nat, u: string, e: nat)
    requires OccursAt(s, ImgHtml(u), x) && u != [] && '"' !in u
    requires e == x + |ImgHtml(u)|
    ensures ImgSrcAt(s, x) == Some(Hit(x, e, [u]))
  {
    ImgLayout(s, x, u);
    SpanIs(s, x + 4, Spaces, 1);
    assert AllIn(u, NotQuote);
    SpanIs(s, x + 10, NotQuote, |u|);
  }

  lemma ImgLayout(s: string, x: nat, u: string)
    requires OccursAt(s, ImgHtml(u), x)
    ensures OccursAt(s, "<img", x) && s[x + 4] == ' ' && !IsSpace(s[x + 5])
    ensures OccursAt(s, "src=\"", x + 5)
    ensures s[x + 10..x + 10 + |u|] == u && x + 10 + |u| < |s| && s[x + 10 + |u|] == '"'
    ensures |ImgHtml(u)| == 11 + |u|
  {
    OccursSplit(s, "<img src=\"" + u, "\"", x);
    OccursSplit(s, "<img src=\"", u, x);
    assert "<img src=\"" == "<img" + " " + "src=\"";
    OccursSplit(s, "<img" + " ", "src=\"", x);
    OccursSplit(s, "<img", " ", x);
    assert s[x + 4] == s[x + 4..x + 5][0];
    assert s[x + 5] == s[x + 5..x + 10][0] == 's';
    assert s[x + 10 + |u|] == s[x + 10 + |u|..x + 11 + |u|][0];
  }

  // Field helpers

  /** `getInner`: the trimmed inside of the first `<tag …>…</tag>` element
      (whose opening tag carries `class="cls"` when `cls` is not empty), or
      `''` when there is none. */
  function GetInner(html: string, tag: string, cls: string): (r: string)
    ensures NoSpaceAtEnds(r)
  {
    match First(Element(tag, cls), html)
    case None => ""
    case Some(h) => Trim(h.groups[0])
  }

  /** An element as markup writes it. */
  function ElementHtml(tag: string, attrs: string, inner: string): string {
    "<" + tag + attrs + ">" + inner + "</" + tag + ">"
  }

  /** `getInner` reads back the inside of a leading element, trimmed,
      provided its attributes close at the first `>` and carry the class
      asked for, and its inside holds no closing tag of the same name. */
  lemma InnerOfElement(tag: string, attrs: string, inner: string, rest: string, cls: string)
    requires '<' !in tag && '>' !in attrs
    requires cls == [] || Contains(attrs, "class=\"" + cls + "\"")
    requires !Contains(inner, "</" + tag + ">")
    ensures GetInner(ElementHtml(tag, attrs, inner) + rest, tag, cls) == Trim(inner)
  {
    var s := ElementHtml(tag, attrs, inner) + rest;
    ElementAtRendered(s, tag, attrs, inner, cls, 3 + 2 * |tag| + |attrs| + |inner| + 2);
    FirstFromIs(Element(tag, cls), s, 0, 0);
  }

  lemma ElementAtRendered(s: string, tag: string, attrs: string, inner: string, cls: string, e: nat)
    requires StartsWith(s, ElementHtml(tag, attrs, inner))
    requires forall k :: 0 <= k < |tag| ==> tag[k] != '<'
    requires forall k :: 0 <= k < |attrs| ==> attrs[k] != '>'
    requires cls == [] || Contains(attrs, "class=\"" + cls + "\"")
    requires !Contains(inner, "</" + tag + ">")
    requires e == 2 + |tag| + |attrs| + |inner| + |tag| + 3
    ensures ElementAt(s, 0, tag, cls) == Some(Hit(0, e, [inner]))
  {
    var g := 1 + |tag| + |attrs|;
    ElementLayout(s, tag, attrs, inner);
    AttributesEnd(s, 1 + |tag|, attrs);
    ClosingTagAfter(s, tag, g + 1, inner);
    ElementAtIs(s, tag, attrs, inner, cls, g, g + 1 + |inner|, e);
  }

  /** The first `>` after attributes free of `>` is the one that closes
      them. */
  lemma AttributesEnd(s: string, t: nat, attrs: string)
    requires OccursAt(s, attrs, t) && forall k :: 0 <= k < |attrs| ==> attrs[k] != '>'
    requires OccursAt(s, ">", t + |attrs|)
    ensures IndexOfFrom(s, ">", t) == Some(t + |attrs|)
  {
    forall j | t <= j < t + |attrs| ensures !OccursAt(s, ">", j) {
      assert s[j] == attrs[j - t];
      FirstCharMissing(s, ">", j);
    }
    IndexOfFromIs(s, ">", t, t + |attrs|);
  }

  /** The first closing tag after an inside free of it is the one right
      behind it. */
  lemma ClosingTagAfter(s: string, tag: string, i: nat, inner: string)
    requires forall k :: 0 <= k < |tag| ==> tag[k] != '<'
    requires OccursAt(s, inner, i) && !Contains(inner, "</" + tag + ">")
    requires OccursAt(s, "</" + tag + ">", i + |inner|)
    ensures IndexOfFrom(s, "</" + tag + ">", i) == Some(i + |inner|)
  {
    ClosingTagOpensOnce(tag);
    IndexAfterGap(s, "</" + tag + ">", i, inner);
  }

  /** The element pattern, once the end of the attributes and the closing
      tag have been found where the markup puts them. */
  lemma ElementAtIs(s: string, tag: string, attrs: string, inner: string, cls: string, g: nat, c: nat, e: nat)
    requires OccursAt(s, "<" + tag, 0)
    requires IndexOfFrom(s, ">", 1 + |tag|) == Some(g)
    requires g == 1 + |tag| + |attrs| && OccursAt(s, attrs, 1 + |tag|)
    requires cls == [] || Contains(attrs, "class=\"" + cls + "\"")
    requires IndexOfFrom(s, "</" + tag + ">", g + 1) == Some(c)
    requires c == g + 1 + |inner| && OccursAt(s, inner, g + 1) && e == c + |tag| + 3
    ensures ElementAt(s, 0, tag, cls) == Some(Hit(0, e, [inner]))
  {
  }

  lemma ClosingTagOpensOnce(tag: string)
    requires forall k :: 0 <= k < |tag| ==> tag[k] != '<'
    ensures forall d :: 0 < d < |"</" + tag + ">"| ==> ("</" + tag + ">")[d] != ("</" + tag + ">")[0]
  {
    var close := "</" + tag + ">";
    forall d | 0 < d < |close| ensures close[d] != close[0] {
      if 2 <= d < 2 + |tag| {
        assert close[d] == tag[d - 2];
      }
    }
  }

  lemma ElementLayout(s: string, tag: string, attrs: string, inner: string)
    requires StartsWith(s, ElementHtml(tag, attrs, inner))
    ensures OccursAt(s, "<" + tag, 0)
    ensures OccursAt(s, attrs, 1 + |tag|)
    ensures OccursAt(s, ">", 1 + |tag| + |attrs|)
    ensures OccursAt(s, inner, 1 + |tag| + |attrs| + 1)
    ensures OccursAt(s, "</" + tag + ">", 1 + |tag| + |attrs| + 1 + |inner|)
  {
    var close := "</" + tag + ">";
    assert OccursAt(s, ElementHtml(tag, attrs, inner), 0);
    assert ElementHtml(tag, attrs, inner) == (("<" + tag) + attrs + ">" + inner) + close;
    OccursSplit(s, ("<" + tag) + attrs + ">" + inner, close, 0);
    OccursSplit(s, ("<" + tag) + attrs + ">", inner, 0);
    OccursSplit(s, ("<" + tag) + attrs, ">", 0);
    OccursSplit(s, "<" + tag, attrs, 0);
  }

  /** A tag `<[^>]+>` at the head of `s`: where its `>` stands. */
  function TagEnd(s: string): (r: Option<nat>)
    ensures r.Some? ==> 1 < r.value < |s|
  {
    if s != [] && s[0] == '<' then
      match IndexOfFrom(s, ">", 1)
      case Some(q) => if q > 1 then Some(q) else None
      case None => None
    else None
  }

  /** `s.replace(/<[^>]+>/g, '')`: scanning left to right, every tag, from
      its `<` to the first `>` after it, is removed. */
  function RemoveTags(s: string): (r: string)
    decreases |s|
  {
    if s == [] then []
    else match TagEnd(s)
      case Some(q) => RemoveTags(s[q + 1..])
      case None => [s[0]] + RemoveTags(s[1..])
  }

  /** No tag is left: a `<` with a `>` anywhere after it is directly
      followed by that `>` (the pattern needs a character between them). */
  predicate NoTag(r: string) {
    forall i, j :: 0 <= i < j < |r| && r[i] == '<' && r[j] == '>' ==> r[i + 1] == '>'
  }

  /** A character missing from the input is missing from the output. */
  lemma {:induction false} RemoveTagsKeepsOut(s: string, c: char)
    requires c !in s
    ensures c !in RemoveTags(s)
    decreases |s|
  {
    if s != [] {
      match TagEnd(s)
      case Some(q) => RemoveTagsKeepsOut(s[q + 1..], c);
      case None => RemoveTagsKeepsOut(s[1..], c);
    }
  }

  /** Removing tags leaves text in which the pattern finds no tag. */
  lemma {:induction false} RemoveTagsLeavesNoTag(s: string)
    ensures NoTag(RemoveTags(s))
    decreases |s|
  {
    if s != [] {
      match TagEnd(s)
      case Some(q) => RemoveTagsLeavesNoTag(s[q + 1..]);
      case None =>
        RemoveTagsLeavesNoTag(s[1..]);
        if s[0] == '<' {
          UntaggedHead(s);
        }
        ConsNoTag(s[0], RemoveTags(s[1..]));
    }
  }

  /** A `<` that starts no tag has either no `>` after it or a `>` right
      after it, and so has what is left of the text after it. */
  lemma UntaggedHead(s: string)
    requires s != [] && s[0] == '<' && TagEnd(s).None?
    ensures var rest := RemoveTags(s[1..]); '>' !in rest || (rest != [] && rest[0] == '>')
  {
    match IndexOfFrom(s, ">", 1)
    case None =>
      forall k | 0 <= k < |s| - 1 ensures s[1..][k] != '>' {
        assert !OccursAt(s, ">", k + 1);
        assert s[k + 1..k + 2] == [s[k + 1]];
      }
      RemoveTagsKeepsOut(s[1..], '>');
    case Some(q) =>
      assert s[1] == s[q..q + 1][0] == '>';
      assert s[1..][1..] == s[2..];
      assert RemoveTags(s[1..]) == [s[1]] + RemoveTags(s[2..]);
  }

  /** Putting a character in front of tag-free text leaves it tag-free,
      unless the character is a `<` that a later `>` would close. */
  lemma ConsNoTag(c: char, rest: string)
    requires NoTag(rest)
    requires c == '<' ==> '>' !in rest || (rest != [] && rest[0] == '>')
    ensures NoTag([c] + rest)
  {
    var r := [c] + rest;
    forall i, j | 0 <= i < j < |r| && r[i] == '<' && r[j] == '>' ensures r[i + 1] == '>' {
      assert r[j] == rest[j - 1];
      if i > 0 {
        assert r[i] == rest[i - 1];
      }
    }
  }

  /** Text in which the pattern finds no tag is left as it is. */
  lemma {:induction false} RemoveTagsOfNoTag(r: string)
    requires NoTag(r)
    ensures RemoveTags(r) == r
    decreases |r|
  {
    if r != [] {
      if r[0] == '<' {
        if |r| > 1 && r[1] == '>' {
          IndexOfFromIs(r, ">", 1, 1);
        } else {
          forall j | 1 <= j ensures !OccursAt(r, ">", j) {
            if j < |r| {
              assert r[0] == '<';
            }
            FirstCharMissing(r, ">", j);
          }
        }
      }
      var tail := r[1..];
      assert NoTag(tail) by {
        forall i, j | 0 <= i < j < |tail| && tail[i] == '<' && tail[j] == '>' ensures tail[i + 1] == '>' {
          assert r[i + 1] == '<' && r[j + 1] == '>';
        }
      }
      RemoveTagsOfNoTag(tail);
    }
  }

  /** Removing tags twice removes nothing more. */
  lemma RemoveTagsIdempotent(s: string)
    ensures RemoveTags(RemoveTags(s)) == RemoveTags(s)
  {
    RemoveTagsLeavesNoTag(s);
    RemoveTagsOfNoTag(RemoveTags(s));
  }

  /** A leading tag is dropped whole. */
  lemma TagRemoved(inner: string, rest: string)
    requires inner != [] && '>' !in inner
    ensures RemoveTags("<" + inner + ">" + rest) == RemoveTags(rest)
  {
    var s := "<" + inner + ">" + rest;
    var q := 1 + |inner|;
    forall j | 1 <= j < q ensures !OccursAt(s, ">", j) {
      assert s[j] == inner[j - 1];
      FirstCharMissing(s, ">", j);
    }
    assert s[q..q + 1] == ">";
    IndexOfFromIs(s, ">", 1, q);
    assert s[q + 1..] == rest;
  }

  /** The two entities the scraper decodes, `&amp;` first. */
  function DecodeEntities(s: string): string {
    ReplaceAll(ReplaceAll(s, "&amp;", "&"), "&nbsp;", " ")
  }

  /** `stripTags`: tags removed, then `&amp;` and `&nbsp;` decoded, then
      the ends trimmed. */
  function StripTags(s: string): (r: string)
    ensures NoSpaceAtEnds(r)
  {
    Trim(DecodeEntities(RemoveTags(s)))
  }

  /** Text without markup or entities is only trimmed. */
  lemma StripTagsOfText(s: string)
    requires '<' !in s && '&' !in s
    ensures StripTags(s) == Trim(s)
  {
    RemoveTagsOfNoTag(s);
    NoAmpersandNoEntity(s, "&amp;");
    NoAmpersandNoEntity(s, "&nbsp;");
  }

  lemma NoAmpersandNoEntity(s: string, e: string)
    requires '&' !in s && e != [] && e[0] == '&'
    ensures IndexOf(s, e).None?
  {
    forall j | 0 <= j <= |s| ensures !OccursAt(s, e, j) {
      MarkerOccurrence(s, e, 0, j);
    }
  }

  /** The decoding order shows: `&amp;nbsp;` becomes `&nbsp;` and then a
      blank. */
  lemma AmpersandDecodedFirst(t: string)
    requires '<' !in t && '&' !in t
    ensures StripTags("&amp;nbsp;" + t) == Trim(" " + t)
  {
    var u := "nbsp;" + t;
    AmpersandRegroup(t);
    assert '<' !in "&amp;" + u;
    RemoveTagsOfNoTag("&amp;" + u);
    LeadingEntityDecoded("&amp;", "&", u);
    LeadingEntityDecoded("&nbsp;", " ", t);
  }

  /** How `&amp;nbsp;` splits around the decoded ampersand. */
  lemma AmpersandRegroup(t: string)
    ensures "&amp;nbsp;" + t == "&amp;" + ("nbsp;" + t)
    ensures "&" + ("nbsp;" + t) == "&nbsp;" + t
  {
  }

  /** An entity at the start of entity-free text is its only occurrence. */
  lemma LeadingEntityDecoded(e: string, rep: string, u: string)
    requires e != [] && e[0] == '&' && '&' !in u
    ensures ReplaceAll(e + u, e, rep) == rep + u
  {
    NoAmpersandNoEntity(u, e);
    ReplaceAllAtStart(e, rep, u);
  }

  /** The host every original listing URL starts with. */
  const VivlaHost: string := "https://www.vivla.com"

  /** `parseOriginalUrl`: the value of the first `href` that starts with
      the Vivla host, or `''`. */
  function OriginalUrl(body: string): (r: string)
    ensures r == [] || (StartsWith(r, VivlaHost) && |r| > |VivlaHost| && AllIn(r[|VivlaHost|..], NotQuote))
  {
    match First(Quoted("href=\"", VivlaHost), body)
    case None => ""
    case Some(h) => h.groups[0]
  }

  /** A leading Vivla link is read back. */
  lemma OriginalUrlOfLink(url: string, rest: string)
    requires StartsWith(url, VivlaHost) && |url| > |VivlaHost| && '"' !in url
    ensures OriginalUrl("href=\"" + url + "\"" + rest) == url
  {
    var s := "href=\"" + url + "\"" + rest;
    var b := 6 + |VivlaHost|;
    var n := |url| - |VivlaHost|;
    assert s[..6 + |url|] == "href=\"" + url;
    assert url == VivlaHost + url[|VivlaHost|..];
    assert s[..b] == "href=\"" + VivlaHost;
    assert OccursAt(s, "href=\"" + VivlaHost, 0);
    assert s[b..b + n] == url[|VivlaHost|..];
    assert AllIn(s[b..b + n], NotQuote);
    assert s[b + n] == '"';
    SpanIs(s, b, NotQuote, n);
    assert s[6..b + n] == url;
    FirstFromIs(Quoted("href=\"", VivlaHost), s, 0, 0);
  }

  /** No link to the host, no URL. */
  lemma OriginalUrlAbsent(body: string)
    requires !Contains(body, "href=\"" + VivlaHost)
    ensures OriginalUrl(body) == ""
  {
    forall j | 0 <= j ensures MatchAt(Quoted("href=\"", VivlaHost), body, j).None? {
      if j > |body| {
        NoMatchPastEnd(Quoted("href=\"", VivlaHost), body);
      }
    }
  }

  // ---------------------------------------------------------------
  // Records

  /** A property record as written to the catalog file. */
  datatype Property = Property(
    id: string, slug: string, title: string, specs: seq<string>,
    description: string, images: seq<string>, originalUrl: string)

  /** The block holding an article's gallery. */
  const ImagesBlock: Pattern := Block("<div class=\"property-images\">", "", "</div>")
  const SpecsHeading: string := "\U{1F4CB} Especificaciones:"
  const DescriptionHeading: string := "\U{1F4DD} Descripci\U{00F3}n:"

  /** The title: the text of the first `h2`. */
  function Title(body: string): (r: string)
    ensures NoSpaceAtEnds(r)
  {
    StripTags(GetInner(body, "h2", ""))
  }

  /** The inside of the first gallery block, if there is one. */
  function Gallery(body: string): Option<string> {
    match First(ImagesBlock, body)
    case None => None
    case Some(h) => Some(h.groups[0])
  }

  /** The images inside the first gallery block, or none without one. */
  function ArticleImages(body: string): seq<string> {
    match Gallery(body)
    case None => []
    case Some(g) => Images(g)
  }

  /** The text of the first `div` of class `cls`, with its heading removed once. */
  function SectionText(body: string, cls: string, heading: string): (r: string)
    ensures NoSpaceAtEnds(r)
  {
    Trim(ReplaceFirst(StripTags(GetInner(body, "div", cls)), heading, ""))
  }

  /** The record built from one article. */
  function PropertyOf(a: RawArticle): Property {
    var title := Title(a.body);
    Property(a.num, Slugs.SlugifyScrape(title), title,
      SpecTokens.Tokens(SectionText(a.body, "property-specs", SpecsHeading)),
      SectionText(a.body, "property-content", DescriptionHeading),
      ArticleImages(a.body), OriginalUrl(a.body))
  }

  /** Builds the record of one article, parsing its gallery with the image loop. */
  method AssembleProperty(a: RawArticle) returns (p: Property)
    ensures p == PropertyOf(a)
  {
    var title := Title(a.body);
    var images: seq<string> := [];
    var gallery := Gallery(a.body);
    if gallery.Some? {
      images := ParseImages(gallery.value);
    }
    var specsLine := SectionText(a.body, "property-specs", SpecsHeading);
    var description := SectionText(a.body, "property-content", DescriptionHeading);
    p := Property(a.num, Slugs.SlugifyScrape(title), title, SpecTokens.Tokens(specsLine),
      description, images, OriginalUrl(a.body));
  }

  /** Every record read from a well-formed article has this shape. */
  lemma PropertyShape(a: RawArticle)
    requires WellFormed(a)
    ensures var p := PropertyOf(a);
      && p.id != [] && AllIn(p.id, Digits)
      && Slugs.AllSatisfy(p.slug, Slugs.IsSlugChar)
      && NoSpaceAtEnds(p.title) && NoSpaceAtEnds(p.description)
      && (forall k :: 0 <= k < |p.specs| ==> p.specs[k] != [] && NoSpaceAtEnds(p.specs[k]) && '|' !in p.specs[k])
      && (forall k :: 0 <= k < |p.images| ==> p.images[k] != [] && '"' !in p.images[k])
      && (p.originalUrl == [] || StartsWith(p.originalUrl, VivlaHost))
  {
    Slugs.SlugScrapeShape(Title(a.body));
    SpecTokens.TokensShape(SectionText(a.body, "property-specs", SpecsHeading));
    match Gallery(a.body)
    case None =>
    case Some(g) => ImagesShape(g);
  }

  /** An article without a heading gets an empty title and an empty slug. */
  lemma UntitledArticle(a: RawArticle)
    requires First(Element("h2", ""), a.body).None?
    ensures PropertyOf(a).title == "" && PropertyOf(a).slug == ""
  {
    Slugs.EmptyTitle();
  }

  /** Scrapes a whole page: one record per article, in document order. */
  method ScrapeProperties(html: string) returns (props: seq<Property>)
    ensures props == Map(PropertyOf, Articles(html))
  {
    var articles := ExtractArticles(html);
    props := [];
    var k := 0;
    while k < |articles|
      invariant k <= |articles| && props == Map(PropertyOf, articles[..k])
    {
      var p := AssembleProperty(articles[k]);
      MapPrefix(PropertyOf, articles, k);
      props := props + [p];
      k := k + 1;
    }
    assert articles[..k] == articles;
  }
}
