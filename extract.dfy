/**
 * extract.js: every article block of the v6 catalog page becomes a
 * property record, and every article whose description names a location
 * ("Ubicación: … .") has its first listing link, in the page being
 * rewritten, replaced by a link to that location.
 */
module Extract {
  import opened Text
  import opened Patterns
  import SpecTokens
  import Scrape

  /** `<h2>(.*?)<\/h2>` */
  const TitlePattern: Pattern := Line("<h2>", "</h2>")
  /** `<strong>📋 Especificaciones:<\/strong><br>\s*([\s\S]*?)\s*<\/div>` */
  const SpecsPattern: Pattern := SpecsLine("<strong>\U{1F4CB} Especificaciones:</strong>", false)
  /** `<strong>📝 Descripción:<\/strong><br>\s*<p>([\s\S]*?)<\/p>` */
  const DescPattern: Pattern := SpacedBlock("<strong>\U{1F4DD} Descripci\U{00F3}n:</strong><br>", "<p>", "</p>")
  const LocationMarker: string := "Ubicaci\U{00F3}n:"
  /** `Ubicación:\s*(.*?)\.` */
  const LocationPattern: Pattern := UntilDot(LocationMarker)
  const SlugFallback: string := "property-"

  /** One record of `properties.json`. */
  datatype Extracted = Extracted(id: string, slug: string, title: string, specs: seq<string>,
                                 description: string, images: seq<string>, location: string,
                                 originalUrl: string)

  // ---------------------------------------------------------------
  // Fields of one article

  /** `titleRegex.exec(content)?.[1] || ''`. */
  function TitleOf(body: string): (r: string)
    ensures OnOneLine(r)
  {
    match FirstGroup(TitlePattern, body)
    case None => ""
    case Some(t) =>
      assert MatchAt(TitlePattern, body, First(TitlePattern, body).value.start) == First(TitlePattern, body);
      t
  }

  /** `refRegex.exec(content)?.[1] || 'property-' + id`. */
  function SlugOf(a: Scrape.RawArticle): string {
    var g := FirstGroup(Reference, a.body);
    if Truthy(g) then g.value else SlugFallback + a.num
  }

  /** `s.replace(/\n/g, '')`. */
  function WithoutNewlines(s: string): (r: string)
    ensures '\n' !in r
    ensures |r| <= |s|
  {
    if s == [] then []
    else if s[0] == '\n' then WithoutNewlines(s[1..])
    else [s[0]] + WithoutNewlines(s[1..])
  }

  /** `specsRegex.exec(content)?.[1]?.replace(/\n/g, '').trim() || ''`. */
  function SpecsTextOf(body: string): (r: string)
    ensures NoSpaceAtEnds(r) && '\n' !in r
  {
    match FirstGroup(SpecsPattern, body)
    case None => ""
    case Some(g) =>
      var w := WithoutNewlines(g);
      NoCharInText(w, '\n');
      SpecTokens.NoCharInTrim(w, '\n');
      Trim(w)
  }

  /** `descRegex.exec(content)?.[1]?.trim() || ''`. */
  function DescriptionOf(body: string): (r: string)
    ensures NoSpaceAtEnds(r)
  {
    TrimmedGroup(DescPattern, body)
  }

  /** `locationMatch ? locationMatch[1].trim() : ''`. */
  function LocationOf(description: string): (r: string)
    ensures NoSpaceAtEnds(r) && OnOneLine(r) && '.' !in r
  {
    match FirstGroup(LocationPattern, description)
    case None => ""
    case Some(g) =>
      assert MatchAt(LocationPattern, description, First(LocationPattern, description).value.start)
        == First(LocationPattern, description);
      TrimKeepsLine(g);
      NoCharInText(g, '.');
      SpecTokens.NoCharInTrim(g, '.');
      Trim(g)
  }

  lemma TrimKeepsLine(s: string)
    requires OnOneLine(s)
    ensures OnOneLine(Trim(s))
  {
    var a, b := TrimIsSlice(s);
    forall j | 0 <= j < b - a ensures !IsLineTerminator(Trim(s)[j]) {
      assert Trim(s)[j] == s[a + j];
    }
  }

  /** The first group of every `<img src="…" alt="…"` of the block. */
  function ImagesIn(body: string): (r: seq<string>)
    ensures |r| == |All(ImgAlt, body)|
    ensures forall k :: 0 <= k < |r| ==> OnOneLine(r[k])
  {
    AllFromGroups(ImgAlt, body, 0, 2);
    AllFromMatches(ImgAlt, body, 0);
    var hits := All(ImgAlt, body);
    forall k | 0 <= k < |hits| ensures OnOneLine(hits[k].groups[0]) {
      assert MatchAt(ImgAlt, body, hits[k].start) == Some(hits[k]);
    }
    Captures(hits, 0)
  }

  /** The record the loop pushes for one article block. */
  function RecordOf(a: Scrape.RawArticle): Extracted {
    var slug := SlugOf(a);
    var description := DescriptionOf(a.body);
    Extracted(a.num, slug, TitleOf(a.body), SpecTokens.Tokens(SpecsTextOf(a.body)), description,
              ImagesIn(a.body), LocationOf(description), ListingsBase + slug)
  }

  /** The image loop: `while ((imgMatch = imageRegex.exec(content)) !== null)`. */
  method ParseImages(body: string) returns (images: seq<string>)
    ensures images == ImagesIn(body)
  {
    images := ExecAll(ImgAlt, 2, body);
  }

  /** The body of the extraction loop, up to the push. */
  method ParseRecord(a: Scrape.RawArticle) returns (r: Extracted)
    ensures r == RecordOf(a)
  {
    var title := TitleOf(a.body);
    var slug := SlugOf(a);
    var specs := SpecsTextOf(a.body);
    var description := DescriptionOf(a.body);
    var location := LocationOf(description);
    var images := ParseImages(a.body);
    var parts := SpecTokens.Tokens(specs);
    r := Extracted(a.num, slug, title, parts, description, images, location, ListingsBase + slug);
  }

  /** Every record keeps its article's number as id, links to the listing
      of its slug, takes the reference as slug or falls back to
      `property-<id>` without one, and holds trimmed spec tokens free of
      `|` and a trimmed location on one line with no dot, empty when the
      description names none. */
  lemma RecordShape(a: Scrape.RawArticle)
    ensures var r := RecordOf(a);
      && r.id == a.num
      && r.originalUrl == ListingsBase + r.slug
      && r.slug != []
      && (AllIn(r.slug, WordOrHyphen) || r.slug == SlugFallback + a.num)
      && (!Contains(a.body, ReferenceOpen) ==> r.slug == SlugFallback + a.num)
      && (forall k :: 0 <= k < |r.specs| ==> r.specs[k] != [] && NoSpaceAtEnds(r.specs[k]) && '|' !in r.specs[k])
      && NoSpaceAtEnds(r.description)
      && NoSpaceAtEnds(r.location) && OnOneLine(r.location) && '.' !in r.location
      && (!Contains(r.description, LocationMarker) ==> r.location == "")
      && |r.images| == |All(ImgAlt, a.body)|
  {
    var f := First(Reference, a.body);
    if f.Some? {
      assert MatchAt(Reference, a.body, f.value.start) == f;
      assert OccursAt(a.body, ReferenceOpen, f.value.start);
    }
    var d := DescriptionOf(a.body);
    var l := First(LocationPattern, d);
    if l.Some? {
      assert MatchAt(LocationPattern, d, l.value.start) == l;
      assert OccursAt(d, LocationMarker, l.value.start);
    }
    SpecTokens.TokensShape(SpecsTextOf(a.body));
  }

  // ---------------------------------------------------------------
  // Rewriting the page

  /** The link written in place of the listing link. */
  function NewLink(location: string): string {
    LinkOpen + location + NewLinkTail
  }

  const NewLinkTail: string := "\"" + " class=\"property-url\" target=\"_blank\">Ver Detalles Completos \U{2192}</a>"

  /** The opening tag of the article numbered `id`. */
  function ArticleTag(id: string): string {
    ArticleOpen + id + "\">"
  }

  /** The replacement text of `String.prototype.replace` with its `$`
      patterns worked out for a pattern without capture groups: `$$` is a
      dollar, `$&` the match, `` $` `` the text before it and `$'` the text
      after it; any other `$` stands for itself. */
  function Expand(rep: string, matched: string, before: string, after: string): string
    decreases |rep|
  {
    if rep == [] then []
    else if rep[0] == '$' && |rep| >= 2 && rep[1] == '$' then "$" + Expand(rep[2..], matched, before, after)
    else if rep[0] == '$' && |rep| >= 2 && rep[1] == '&' then matched + Expand(rep[2..], matched, before, after)
    else if rep[0] == '$' && |rep| >= 2 && rep[1] == '`' then before + Expand(rep[2..], matched, before, after)
    else if rep[0] == '$' && |rep| >= 2 && rep[1] == '\'' then after + Expand(rep[2..], matched, before, after)
    else [rep[0]] + Expand(rep[1..], matched, before, after)
  }

  /** A replacement with no `$` is inserted as it stands. */
  lemma {:induction false} ExpandLiteral(rep: string, matched: string, before: string, after: string)
    requires '$' !in rep
    ensures Expand(rep, matched, before, after) == rep
    decreases |rep|
  {
    if rep != [] {
      assert rep[1..] == rep[1..];
      ExpandLiteral(rep[1..], matched, before, after);
    }
  }

  /** `$&` brings the replaced text back. */
  lemma ExpandMatched(rest: string, matched: string, before: string, after: string)
    ensures Expand("$&" + rest, matched, before, after) == matched + Expand(rest, matched, before, after)
  {
    assert ("$&" + rest)[2..] == rest;
  }

  /** `s.replace(re, rep)` for a non-global pattern: the leftmost match, if
      any, is replaced by the expanded replacement; the text before and
      after it stays. */
  function ReplaceFirstMatch(p: Pattern, s: string, rep: string): (r: string)
    ensures First(p, s).None? ==> r == s
    ensures First(p, s).Some? ==>
      var h := First(p, s).value;
      h.start <= h.end <= |s|
      && r == s[..h.start] + Expand(rep, s[h.start..h.end], s[..h.start], s[h.end..]) + s[h.end..]
  {
    match First(p, s)
    case None => s
    case Some(h) =>
      assert MatchAt(p, s, h.start) == Some(h);
      s[..h.start] + Expand(rep, s[h.start..h.end], s[..h.start], s[h.end..]) + s[h.end..]
  }

  /** `updatedHtml.indexOf('</article>', startIndex) + 10`: `9` when no
      closing tag follows. */
  function EndIndex(u: string, start: nat): int {
    match IndexOfFrom(u, ArticleClose, start)
    case None => -1 + 10
    case Some(c) => c + 10
  }

  /** One turn of the rewrite: with a location, the first link of the
      article numbered `id` in `u` (from its first opening tag to the next
      `</article>`) is replaced by the location's link. */
  function Splice(u: string, id: string, location: string): string {
    if location == "" then u
    else
      match IndexOf(u, ArticleTag(id))
      case None => u
      case Some(start) =>
        SpliceText(u, start, EndIndex(u, start), NewLink(location))
  }

  /** `u.substring(0, start) + section.replace(linkRegex, rep) +
      u.substring(endIndex)`, where `section` is `u.substring(start, endIndex)`. */
  function SpliceText(u: string, start: nat, endIndex: int, rep: string): string {
    JsSubstring(u, 0, start) + ReplaceFirstMatch(Link, JsSubstring(u, start, endIndex), rep) + JsSubstring(u, endIndex, |u|)
  }

  /** The page after the loop has handled `records` in order. */
  function RewriteAll(u: string, records: seq<Extracted>): string
    decreases |records|
  {
    if records == [] then u
    else
      var last := records[|records| - 1];
      Splice(RewriteAll(u, records[..|records| - 1]), last.id, last.location)
  }

  /** Without a location, or when the article's tag is not in the page,
      the page is left as it is. */
  lemma SpliceSkips(u: string, id: string, location: string)
    requires location == "" || !Contains(u, ArticleTag(id))
    ensures Splice(u, id, location) == u
  {
  }

  /** A splice rewrites only the article: the text before its first
      opening tag and the text after the `</article>` that closes it are
      kept, and in between only the first link is replaced. */
  lemma SpliceFrame(u: string, id: string, location: string, start: nat, c: nat)
    requires location != ""
    requires IndexOf(u, ArticleTag(id)) == Some(start)
    requires IndexOfFrom(u, ArticleClose, start) == Some(c)
    ensures start <= c && c + |ArticleClose| <= |u|
    ensures Splice(u, id, location) ==
      u[..start] + ReplaceFirstMatch(Link, u[start..c + |ArticleClose|], NewLink(location)) + u[c + |ArticleClose|..]
  {
    assert EndIndex(u, start) == c + |ArticleClose|;
    SpliceTextClosed(u, start, c + |ArticleClose|, NewLink(location));
  }

  lemma SpliceTextClosed(u: string, start: nat, endIndex: nat, rep: string)
    requires start <= endIndex <= |u|
    ensures SpliceText(u, start, endIndex, rep) ==
      u[..start] + ReplaceFirstMatch(Link, u[start..endIndex], rep) + u[endIndex..]
  {
  }

  /** An article whose block holds no link is left as it is, whatever its
      location: a second run over a rewritten article changes nothing once
      its listing link is gone. */
  lemma SpliceWithoutLink(u: string, id: string, location: string, start: nat, c: nat)
    requires IndexOf(u, ArticleTag(id)) == Some(start)
    requires IndexOfFrom(u, ArticleClose, start) == Some(c)
    requires start <= c + |ArticleClose| <= |u|
    requires First(Link, u[start..c + |ArticleClose|]).None?
    ensures Splice(u, id, location) == u
  {
    if location != "" {
      var e := c + |ArticleClose|;
      SpliceFrame(u, id, location, start, c);
      var section := u[start..e];
      assert ReplaceFirstMatch(Link, section, NewLink(location)) == section;
      Reassembled(u, start, e);
    }
  }

  lemma Reassembled(u: string, a: nat, b: nat)
    requires a <= b <= |u|
    ensures u[..a] + u[a..b] + u[b..] == u
  {
    assert u[..a] + u[a..b] == u[..b];
  }

  /** The written link is not a listing link again: its href is neither
      `#` nor on the listings host, so a later run does not take it for
      the link to replace. */
  lemma NewLinkNotRelinked(location: string, rest: string)
    requires '"' !in location && location != "#" && !StartsWith(location, ListingsBase)
    ensures LinkAt(NewLink(location) + rest, 0).None?
  {
    var s := NewLink(location) + rest;
    var a := |LinkOpen|;
    assert s == LinkOpen + location + (NewLinkTail + rest);
    assert s[a..] == location + (NewLinkTail + rest);
    assert NewLinkTail[0] == '"';
    assert (NewLinkTail + rest)[0] == NewLinkTail[0];
    HrefNotListing(s, a, location, NewLinkTail + rest);
    assert OccursAt(s, LinkOpen, 0);
    assert LinkHrefEnd(s, a).None?;
  }

  /** An href value that is quote-free, not `#` and not on the listings
      host, followed by its closing quote. */
  lemma HrefNotListing(s: string, a: nat, location: string, t: string)
    requires a <= |s| && s[a..] == location + t && t != [] && t[0] == '"'
    requires '"' !in location && location != "#" && !StartsWith(location, ListingsBase)
    ensures !OccursAt(s, ListingsBase, a) && !OccursAt(s, "#\"", a)
  {
    var n := |location|;
    assert s[a + n] == '"' by {
      assert s[a..][n] == t[0];
    }
    if OccursAt(s, ListingsBase, a) {
      if n < |ListingsBase| {
        ListingsBaseUnquoted();
      }
    }
    if n == 1 {
      assert location[0] == s[a..][0] == s[a];
      assert location[0] != '#';
    } else if n >= 2 {
      assert location[1] == s[a..][1] == s[a + 1];
    }
  }

  lemma ListingsBaseUnquoted()
    ensures '"' !in ListingsBase
  {
  }

  /** When no record names a location the page is written back as read. */
  lemma {:induction false} RewriteWithoutLocations(u: string, records: seq<Extracted>)
    requires forall k :: 0 <= k < |records| ==> records[k].location == ""
    ensures RewriteAll(u, records) == u
    decreases |records|
  {
    if records != [] {
      RewriteWithoutLocations(u, records[..|records| - 1]);
    }
  }

  // ---------------------------------------------------------------
  // The extraction loop

  /** The records of a page, one per article block in order. */
  function Properties(html: string): (r: seq<Extracted>)
    ensures |r| == |Scrape.Articles(html)|
    ensures forall k :: 0 <= k < |r| ==> r[k] == RecordOf(Scrape.Articles(html)[k])
  {
    Map(RecordOf, Scrape.Articles(html))
  }

  /** The main loop of extract.js: `exec` the article pattern over the
      page as read, push each block's record, and rewrite that block's link
      in the page being updated. */
  method ExtractAll(html: string) returns (properties: seq<Extracted>, updated: string)
    ensures properties == Properties(html)
    ensures updated == RewriteAll(html, properties)
  {
    AllFromGroups(Article, html, 0, 2);
    properties := [];
    updated := html;
    var last: nat := 0;
    var m := FirstFrom(Article, html, last);
    ghost var done: seq<Scrape.RawArticle> := [];
    while m.Some?
      invariant last <= |html| && m == FirstFrom(Article, html, last)
      invariant Scrape.Pairs(AllFrom(Article, html, last))
      invariant done + Scrape.ArticlesOf(AllFrom(Article, html, last)) == Scrape.Articles(html)
      invariant properties == Map(RecordOf, done)
      invariant updated == RewriteAll(html, properties)
      decreases |html| + 1 - last
    {
      var h := m.value;
      Scrape.ArticleStep(html, last, h);
      var next := Scrape.RawArticle(h.groups[0], h.groups[1]);
      var r := ParseRecord(next);
      ExtractStep(html, last, h, done, next, properties, r, updated);
      updated := Splice(updated, r.id, r.location);
      properties := properties + [r];
      done := done + [next];
      last := h.end;
      m := FirstFrom(Article, html, last);
    }
    LoopDone(Article, html, last);
  }

  /** One turn of the main loop keeps its invariant: the article it reads
      is the next one of the page, and its record and rewrite extend those
      of the articles before it. */
  lemma ExtractStep(html: string, last: nat, h: Hit, done: seq<Scrape.RawArticle>, next: Scrape.RawArticle,
                    properties: seq<Extracted>, r: Extracted, updated: string)
    requires last <= |html| && FirstFrom(Article, html, last) == Some(h)
    requires Scrape.Pairs(AllFrom(Article, html, last)) && |h.groups| == 2
    requires next == Scrape.RawArticle(h.groups[0], h.groups[1])
    requires done + Scrape.ArticlesOf(AllFrom(Article, html, last)) == Scrape.Articles(html)
    requires properties == Map(RecordOf, done) && r == RecordOf(next)
    requires updated == RewriteAll(html, properties)
    ensures Scrape.Pairs(AllFrom(Article, html, h.end))
    ensures (done + [next]) + Scrape.ArticlesOf(AllFrom(Article, html, h.end)) == Scrape.Articles(html)
    ensures properties + [r] == Map(RecordOf, done + [next])
    ensures Splice(updated, r.id, r.location) == RewriteAll(html, properties + [r])
  {
    LoopStep(html, last, h, done, next);
    RecordsStep(done, next, properties, r);
    RewriteStep(html, properties, r);
  }

  /** The article a turn of the main loop reads is the next one of the
      page. */
  lemma LoopStep(html: string, last: nat, h: Hit, done: seq<Scrape.RawArticle>, next: Scrape.RawArticle)
    requires last <= |html| && FirstFrom(Article, html, last) == Some(h)
    requires Scrape.Pairs(AllFrom(Article, html, last)) && |h.groups| == 2
    requires next == Scrape.RawArticle(h.groups[0], h.groups[1])
    requires done + Scrape.ArticlesOf(AllFrom(Article, html, last)) == Scrape.Articles(html)
    ensures Scrape.Pairs(AllFrom(Article, html, h.end))
    ensures (done + [next]) + Scrape.ArticlesOf(AllFrom(Article, html, h.end)) == Scrape.Articles(html)
  {
    Scrape.ArticleStep(html, last, h);
    var rest := Scrape.ArticlesOf(AllFrom(Article, html, h.end));
    assert done + ([next] + rest) == (done + [next]) + rest;
  }

  lemma RewriteStep(html: string, properties: seq<Extracted>, r: Extracted)
    ensures RewriteAll(html, properties + [r]) == Splice(RewriteAll(html, properties), r.id, r.location)
  {
    assert (properties + [r])[..|properties|] == properties;
  }

  lemma RecordsStep(done: seq<Scrape.RawArticle>, next: Scrape.RawArticle, properties: seq<Extracted>, r: Extracted)
    requires properties == Map(RecordOf, done) && r == RecordOf(next)
    ensures properties + [r] == Map(RecordOf, done + [next])
  {
    assert (done + [next])[..|done|] == done;
  }
}
