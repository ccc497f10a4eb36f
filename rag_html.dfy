/**
 * generate-rag-html.js: every entry of the listings file becomes an
 * article of the catalog page. Its spec list is parsed with no status
 * flags and formatted with the extras last; its description is cut by the
 * masculine markers.
 */
module RagHtml {
  import opened Text
  import opened SpecTokens
  import opened Descriptions
  import opened Yucatan

  const BaseUrl: string := "https://realestate-viviendas.vercel.app"

  /** An entry of the listings file; `None` is a missing or null value. */
  datatype Entry = Entry(id: string, title: string, slug: string, images: Option<seq<string>>,
                         specs: Option<seq<string>>, description: Option<string>)

  // ---------------------------------------------------------------
  // Specs

  /** `parseSpecs`: `None` is the `{}` returned for a missing or empty
      list; otherwise every item is trimmed, kept even when empty, and read
      with no status flags. */
  function ParseSpecsOf(specs: Option<seq<string>>): (r: Option<Specs>)
    ensures r.None? <==> specs.None? || specs.value == []
  {
    if specs.None? || specs.value == [] then None
    else Some(Parsed(NoFlags, TrimAll(specs.value)))
  }

  method ParseSpecs(specs: Option<seq<string>>) returns (r: Option<Specs>)
    ensures r == ParseSpecsOf(specs)
  {
    if specs.None? || |specs.value| == 0 {
      return None;
    }
    var p := ParseTokens(NoFlags, TrimAll(specs.value));
    r := Some(p);
  }

  /** The parts `formatSpecsText` joins: the fields, then the extras. */
  function RagParts(p: Specs): seq<string> {
    FieldTexts(p, DisplayLabels) + p.extras
  }

  /** `formatSpecsText` as written: on `{}` it reads `parsed.extras.length`
      of an undefined `extras` and throws, here `None`. */
  function FormatSpecsTextAsWritten(specs: Option<seq<string>>): Option<string> {
    match ParseSpecsOf(specs)
    case None => None
    case Some(p) => Some(Join(RagParts(p), " | "))
  }

  /** `formatSpecsText` as evidently intended: no specs, no text. */
  function FormatSpecsText(specs: Option<seq<string>>): string {
    match ParseSpecsOf(specs)
    case None => ""
    case Some(p) => Join(RagParts(p), " | ")
  }

  /** The written version fails exactly on a missing or empty list, and
      agrees with the corrected one everywhere else. */
  lemma FormatFaultsOnEmptySpecs(specs: Option<seq<string>>)
    ensures FormatSpecsTextAsWritten(specs).None? <==> (specs.None? || specs.value == [])
    ensures FormatSpecsTextAsWritten(specs).Some? ==> FormatSpecsTextAsWritten(specs).value == FormatSpecsText(specs)
    ensures FormatSpecsTextAsWritten(Some([])).None? && FormatSpecsText(Some([])) == ""
  {
  }

  /** A record whose texts hold no `|` formats into a line that splits
      back on ` | ` into its fields followed by its extras. */
  lemma RagSplitsBack(p: Specs)
    requires FreeOf(p, '|')
    ensures RagParts(p) == [] ==> Join(RagParts(p), " | ") == ""
    ensures RagParts(p) != [] ==> Split(Join(RagParts(p), " | "), " | ") == RagParts(p)
  {
    var all := RagParts(p);
    var fields := FieldTexts(p, DisplayLabels);
    DisplayLabelsFreeOfBar();
    FieldTextsFreeOf(p, DisplayLabels, '|');
    if all != [] {
      forall k | 0 <= k < |all| ensures '|' !in all[k] {
        if k >= |fields| {
          assert all[k] == p.extras[k - |fields|];
        }
      }
      SplitJoin(all, " | ", 1);
    }
  }

  /** The formatted specs split back on ` | ` into the labelled fields
      followed by the extras, when no item holds a `|`. */
  lemma FormatSpecsTextParts(items: seq<string>)
    requires items != []
    requires forall k :: 0 <= k < |items| ==> '|' !in items[k]
    ensures var p := Parsed(NoFlags, TrimAll(items));
      && (RagParts(p) == [] ==> FormatSpecsText(Some(items)) == "")
      && (RagParts(p) != [] ==> Split(FormatSpecsText(Some(items)), " | ") == FieldTexts(p, DisplayLabels) + p.extras)
  {
    var parts := TrimAll(items);
    TrimAllFreeOf(items, '|');
    var p := Parsed(NoFlags, parts);
    ParsedFreeOf(NoFlags, parts, '|');
    RagSplitsBack(p);
    assert ParseSpecsOf(Some(items)) == Some(p);
    var line := FormatSpecsText(Some(items));
    assert line == Join(RagParts(p), " | ");
    assert RagParts(p) != [] ==> Split(line, " | ") == RagParts(p);
    assert RagParts(p) == [] ==> line == "";
  }

  lemma TrimAllFreeOf(items: seq<string>, c: char)
    requires forall k :: 0 <= k < |items| ==> c !in items[k]
    ensures forall k :: 0 <= k < |TrimAll(items)| ==> c !in TrimAll(items)[k]
  {
    forall k | 0 <= k < |items| ensures c !in TrimAll(items)[k] {
      NoCharInText(items[k], c);
      NoCharInTrim(items[k], c);
    }
  }

  /** The two orders: the Yucatán generators put the extras first, this
      one last; with fields and extras both present the lines differ. */
  lemma ExtrasPlacement(p: Specs)
    requires FieldTexts(p, DisplayLabels) != [] && p.extras != []
    requires FreeOf(p, '|')
    ensures Split(FormatSpecsOf(p), " | ")[0] == p.extras[0]
    ensures Split(Join(RagParts(p), " | "), " | ")[0] == FieldTexts(p, DisplayLabels)[0]
  {
    FormatSplitsBack(p);
    RagSplitsBack(p);
  }

  // ---------------------------------------------------------------
  // Generated article

  /** The sections `propertyToHtml` writes, in order. */
  datatype RagSection =
    | Title(id: string, title: string)
    | EntryMeta(id: string, slug: string)
    | Pictures(pictures: seq<Image>)
    | SpecsText(specs: string, detail: seq<SpecItem>)
    | MainText(main: string)
    | UniqueText(text: string)
    | LocationText(text: string)
    | EntryLink(url: string)

  function OptionalText(o: Option<string>, make: string -> RagSection): seq<RagSection> {
    if Truthy(o) then [make(o.value)] else []
  }

  /** The detail spans: the labelled fields only, never the extras. */
  function DetailOf(specs: Option<seq<string>>): (r: seq<SpecItem>)
    ensures |r| <= 4 && forall k :: 0 <= k < |r| ==> r[k].name != ""
  {
    match ParseSpecsOf(specs)
    case None => []
    case Some(p) => FieldDetail(p)
  }

  /** The sections of an article, from its parts. */
  function Layout(id: string, title: string, slug: string, pictures: seq<Image>, specs: string,
                  detail: seq<SpecItem>, main: string, unique: Option<string>, location: Option<string>): seq<RagSection>
  {
    [Title(id, title), EntryMeta(id, slug), Pictures(pictures), SpecsText(specs, detail), MainText(main)]
    + OptionalText(unique, (t: string) => UniqueText(t))
    + OptionalText(location, (t: string) => LocationText(t))
    + [EntryLink(BaseUrl + "/" + slug)]
  }

  /** `propertyToHtml(property)`. */
  function PropertyToHtml(e: Entry): seq<RagSection> {
    var images := if e.images.Some? then e.images.value else [];
    Layout(e.id, e.title, e.slug, GalleryOf(e.title, images), FormatSpecsText(e.specs), DetailOf(e.specs),
           MainDescription(e.description), UniqueSection(e.description), LocationSection(e.description))
  }

  /** `propertyToHtml(property)` as written: it fails where the written
      `formatSpecsText` fails. */
  function PropertyToHtmlAsWritten(e: Entry): Option<seq<RagSection>> {
    match FormatSpecsTextAsWritten(e.specs)
    case None => None
    case Some(text) =>
      var images := if e.images.Some? then e.images.value else [];
      Some(Layout(e.id, e.title, e.slug, GalleryOf(e.title, images), text, DetailOf(e.specs),
                  MainDescription(e.description), UniqueSection(e.description), LocationSection(e.description)))
  }

  /** An article opens with its title, holds its detail in the fourth
      section, shows the unique and location blocks only when their text
      is non-empty, and closes with its link. */
  lemma LayoutShape(id: string, title: string, slug: string, pictures: seq<Image>, specs: string,
                    detail: seq<SpecItem>, main: string, unique: Option<string>, location: Option<string>)
    ensures var a := Layout(id, title, slug, pictures, specs, detail, main, unique, location);
      && 6 <= |a| <= 8
      && a[0] == Title(id, title)
      && a[3] == SpecsText(specs, detail)
      && a[|a| - 1] == EntryLink(BaseUrl + "/" + slug)
      && ((exists k :: 0 <= k < |a| && a[k].UniqueText?) <==> Truthy(unique))
      && ((exists k :: 0 <= k < |a| && a[k].LocationText?) <==> Truthy(location))
  {
    var a := Layout(id, title, slug, pictures, specs, detail, main, unique, location);
    var u := OptionalText(unique, (t: string) => UniqueText(t));
    var l := OptionalText(location, (t: string) => LocationText(t));
    assert |a| == 6 + |u| + |l|;
    if Truthy(unique) {
      assert a[5] == u[0];
    }
    if Truthy(location) {
      assert a[5 + |u|] == l[0];
    }
    forall k | 0 <= k < |a|
      ensures (a[k].UniqueText? ==> Truthy(unique))
      ensures (a[k].LocationText? ==> Truthy(location))
    {
      if 5 <= k < 5 + |u| {
        assert a[k] == u[k - 5];
      } else if 5 + |u| <= k < |a| - 1 {
        assert a[k] == l[k - 5 - |u|];
      }
    }
  }

  /** An entry's article: its title first, at most the four labelled
      fields as detail, the unique and location blocks exactly when their
      sections are non-empty, and its link last. */
  lemma PropertyLayout(e: Entry)
    ensures var a := PropertyToHtml(e);
      && 6 <= |a| <= 8
      && a[0] == Title(e.id, e.title)
      && a[3].SpecsText? && |a[3].detail| <= 4
      && (forall k :: 0 <= k < |a[3].detail| ==> a[3].detail[k].name != "")
      && a[|a| - 1] == EntryLink(BaseUrl + "/" + e.slug)
      && ((exists k :: 0 <= k < |a| && a[k].UniqueText?) <==> Truthy(UniqueSection(e.description)))
      && ((exists k :: 0 <= k < |a| && a[k].LocationText?) <==> Truthy(LocationSection(e.description)))
  {
    var images := if e.images.Some? then e.images.value else [];
    LayoutShape(e.id, e.title, e.slug, GalleryOf(e.title, images), FormatSpecsText(e.specs), DetailOf(e.specs),
                MainDescription(e.description), UniqueSection(e.description), LocationSection(e.description));
  }

  // ---------------------------------------------------------------
  // Generated page

  /** The catalog page: the total shown, the time of generation (a
      parameter) and one article per entry. */
  datatype RagPage = RagPage(total: nat, updated: string, articles: seq<seq<RagSection>>)

  /** `buildHtml(properties)`: one article per entry, in input order,
      counted. */
  function BuildHtml(entries: seq<Entry>, updated: string): (page: RagPage)
    ensures page.total == |entries| == |page.articles|
    ensures forall k :: 0 <= k < |entries| ==> page.articles[k] == PropertyToHtml(entries[k])
  {
    RagPage(|entries|, updated, Map(PropertyToHtml, entries))
  }

  /** An entry without specs: missing, or an empty list. */
  predicate NoSpecs(e: Entry) {
    e.specs.None? || e.specs.value == []
  }

  /** `buildHtml(properties)` as written: `properties.map(propertyToHtml)`
      fails at the first entry whose article fails. */
  function BuildHtmlAsWritten(entries: seq<Entry>, updated: string): Option<RagPage> {
    match MapAll(PropertyToHtmlAsWritten, entries)
    case None => None
    case Some(articles) => Some(RagPage(|entries|, updated, articles))
  }

  /** The written page builder fails exactly when some entry has no
      specs, and otherwise builds the corrected page. */
  lemma BuildHtmlFaultsOnEmptySpecs(entries: seq<Entry>, updated: string)
    ensures BuildHtmlAsWritten(entries, updated).None? <==> exists k :: 0 <= k < |entries| && NoSpecs(entries[k])
    ensures BuildHtmlAsWritten(entries, updated).Some? ==> BuildHtmlAsWritten(entries, updated).value == BuildHtml(entries, updated)
  {
    forall e ensures PropertyToHtmlAsWritten(e).Some? ==> PropertyToHtmlAsWritten(e).value == PropertyToHtml(e) {
      ArticleFaults(e);
    }
    MapAllFails(PropertyToHtmlAsWritten, PropertyToHtml, entries);
    forall k | 0 <= k < |entries| ensures PropertyToHtmlAsWritten(entries[k]).None? <==> NoSpecs(entries[k]) {
      ArticleFaults(entries[k]);
    }
  }

  /** One entry's written article fails exactly when it has no specs. */
  lemma ArticleFaults(e: Entry)
    ensures PropertyToHtmlAsWritten(e).None? <==> NoSpecs(e)
    ensures PropertyToHtmlAsWritten(e).Some? ==> PropertyToHtmlAsWritten(e).value == PropertyToHtml(e)
  {
    FormatFaultsOnEmptySpecs(e.specs);
  }
}
