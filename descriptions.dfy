/**
 * Splitting a listing description into its main text, its "what makes it
 * unique" section and its location section.
 *
 * The Yucatán generators (`splitDesc` in generate-yucatan-rag-v2.js, and
 * the same code inline in generate-yucatan-rag.js) look for the marker
 * `¿Qué la hace única?:` and, after it, for `Ubicación:`.  The catalog
 * generator (generate-rag-html.js) has three separate extractors with the
 * masculine marker `¿Qué lo hace único?`: the main text by `indexOf`, and
 * the two sections by regular expressions, which skip a run of colons and
 * blanks after the marker.
 */
module Descriptions {
  import opened Text

  const UniqueMarker: string := "\U{00BF}Qu\U{00E9} la hace \U{00FA}nica?:"
  const LocationMarker: string := "Ubicaci\U{00F3}n:"

  /** The three parts a description is split into. */
  datatype Sections = Sections(main: string, unique: string, location: string)

  /** `splitDesc`: without the marker the description is the main text as
      it is (not trimmed); with it, the text before is the main text, and
      the text after is cut at the first `Ubicación:` that follows. */
  function SplitDescription(desc: string): Sections {
    match IndexOf(desc, UniqueMarker)
    case None => Sections(desc, "", "")
    case Some(u) =>
      var rest := desc[u + |UniqueMarker|..];
      var main := Trim(desc[..u]);
      match IndexOf(rest, LocationMarker)
      case None => Sections(main, Trim(rest), "")
      case Some(l) => Sections(main, Trim(rest[..l]), Trim(rest[l + |LocationMarker|..]))
  }

  /** A description without the marker is all main text, untrimmed. */
  lemma SplitWithoutMarker(desc: string)
    requires !Contains(desc, UniqueMarker)
    ensures SplitDescription(desc) == Sections(desc, "", "")
  {
  }

  /** With the marker, every section is trimmed; the main text never holds
      the marker and the unique section never holds `Ubicación:`. */
  lemma SplitSectionsClean(desc: string)
    ensures Contains(desc, UniqueMarker) ==>
              NoSpaceAtEnds(SplitDescription(desc).main)
              && NoSpaceAtEnds(SplitDescription(desc).unique)
              && NoSpaceAtEnds(SplitDescription(desc).location)
    ensures !Contains(SplitDescription(desc).main, UniqueMarker)
    ensures !Contains(SplitDescription(desc).unique, LocationMarker)
  {
    match IndexOf(desc, UniqueMarker)
    case None =>
      assert !OccursAt("", LocationMarker, 0);
    case Some(u) =>
      TrimBeforeFirst(desc, UniqueMarker, u);
      var rest := desc[u + |UniqueMarker|..];
      match IndexOf(rest, LocationMarker)
      case None => TrimNotContains(rest, LocationMarker);
      case Some(l) => TrimBeforeFirst(rest, LocationMarker, l);
  }

  /** Splitting gives back the trimmed parts a description was assembled
      from, provided the main text has no `¿` and the unique section no
      `U`, so that neither marker is found early. */
  lemma SplitRoundTrip(main: string, unique: string, location: string)
    requires '\U{00BF}' !in main && 'U' !in unique
    ensures SplitDescription(main + UniqueMarker + (unique + LocationMarker + location))
            == Sections(Trim(main), Trim(unique), Trim(location))
  {
    var tail := unique + LocationMarker + location;
    assert UniqueMarker[0] == '\U{00BF}';
    SplitAt(main, UniqueMarker, tail);
    assert LocationMarker[0] == 'U';
    SplitAt(unique, LocationMarker, location);
  }

  // generate-rag-html.js

  const UniqueMarkerMasculine: string := "\U{00BF}Qu\U{00E9} lo hace \U{00FA}nico?"
  const LocationWord: string := "Ubicaci\U{00F3}n"

  /** The regex class `[:\s]`. */
  predicate IsColonOrSpace(c: char) {
    c == ':' || IsSpace(c)
  }

  predicate AllColonOrSpace(s: string) {
    forall i :: 0 <= i < |s| ==> IsColonOrSpace(s[i])
  }

  /** Where the greedy `[:\s]*` starting at `k` stops. */
  function SkipColonSpace(s: string, k: nat): (r: nat)
    requires k <= |s|
    ensures k <= r <= |s|
    ensures forall i :: k <= i < r ==> IsColonOrSpace(s[i])
    ensures r == |s| || !IsColonOrSpace(s[r])
    decreases |s| - k
  {
    if k < |s| && IsColonOrSpace(s[k]) then SkipColonSpace(s, k + 1) else k
  }

  /** `extractMainDescription`: empty for a missing or empty description;
      otherwise the trimmed text before the first `¿Qué lo hace único?`,
      or else before the first `Ubicación:`, or else all of it. */
  function MainDescription(description: Option<string>): string {
    if !Truthy(description) then ""
    else
      var d := description.value;
      match IndexOf(d, UniqueMarkerMasculine)
      case Some(u) => Trim(d[..u])
      case None =>
        match IndexOf(d, LocationMarker)
        case Some(l) => Trim(d[..l])
        case None => Trim(d)
  }

  /** `extractUnique`: the first match of
      `¿Qué lo hace único\?[:\s]*(.*?)(?:Ubicación:|$)` with the `s` flag.
      The match starts at the first marker, the greedy run of colons and
      blanks is skipped, and the lazy group runs to the first following
      `Ubicación:` or to the end. */
  function UniqueSection(description: Option<string>): Option<string> {
    if !Truthy(description) then None
    else
      var d := description.value;
      match IndexOf(d, UniqueMarkerMasculine)
      case None => None
      case Some(u) =>
        var k := SkipColonSpace(d, u + |UniqueMarkerMasculine|);
        var e := match IndexOfFrom(d, LocationMarker, k)
                 case None => |d|
                 case Some(l) => l;
        Some(Trim(d[k..e]))
  }

  /** `extractLocation`: the first match of `Ubicación[:\s]*(.*?)$` with
      the `s` flag: everything after the first `Ubicación` and the run of
      colons and blanks following it, trimmed. */
  function LocationSection(description: Option<string>): Option<string> {
    if !Truthy(description) then None
    else
      var d := description.value;
      match IndexOf(d, LocationWord)
      case None => None
      case Some(u) => Some(Trim(d[SkipColonSpace(d, u + |LocationWord|)..]))
  }

  /** A section is found exactly when the description is set, non-empty
      and holds its marker. */
  lemma RagSectionsFound(description: Option<string>)
    ensures UniqueSection(description).Some?
            <==> Truthy(description) && Contains(description.value, UniqueMarkerMasculine)
    ensures LocationSection(description).Some?
            <==> Truthy(description) && Contains(description.value, LocationWord)
  {
  }

  /** The main text never holds the unique marker, and the unique section
      never holds `Ubicación:`. */
  lemma RagSectionsClean(description: Option<string>)
    ensures !Contains(MainDescription(description), UniqueMarkerMasculine)
    ensures UniqueSection(description).Some? ==>
              !Contains(UniqueSection(description).value, LocationMarker)
  {
    if Truthy(description) {
      var d := description.value;
      var found := IndexOf(d, UniqueMarkerMasculine);
      if found.Some? {
        TrimBeforeFirst(d, UniqueMarkerMasculine, found.value);
        UniqueClean(d, found.value);
      } else {
        var at := IndexOf(d, LocationMarker);
        if at.Some? {
          NoOccurrenceBetween(d, UniqueMarkerMasculine, 0, at.value);
          assert d[0..at.value] == d[..at.value];
          TrimNotContains(d[..at.value], UniqueMarkerMasculine);
        } else {
          TrimNotContains(d, UniqueMarkerMasculine);
        }
      }
    } else {
      assert !OccursAt("", UniqueMarkerMasculine, 0);
    }
  }

  lemma UniqueClean(d: string, u: nat)
    requires d != [] && IndexOf(d, UniqueMarkerMasculine) == Some(u)
    ensures !Contains(UniqueSection(Some(d)).value, LocationMarker)
  {
    var k := SkipColonSpace(d, u + |UniqueMarkerMasculine|);
    var at := IndexOfFrom(d, LocationMarker, k);
    var e := if at.Some? then at.value else |d|;
    NoOccurrenceBetween(d, LocationMarker, k, e);
    TrimNotContains(d[k..e], LocationMarker);
  }

  /** The greedy skip stops exactly past a run of colons and blanks that is
      followed by something else. */
  lemma {:induction false} SkipRun(s: string, k: nat, run: string)
    requires k + |run| <= |s| && s[k..k + |run|] == run && AllColonOrSpace(run)
    requires k + |run| == |s| || !IsColonOrSpace(s[k + |run|])
    ensures SkipColonSpace(s, k) == k + |run|
    decreases |run|
  {
    if run != [] {
      assert s[k] == run[0];
      assert s[k + 1..k + 1 + |run[1..]|] == run[1..];
      SkipRun(s, k + 1, run[1..]);
    }
  }

  /** A description assembled from a main text, the masculine marker, a
      run of colons and blanks, a unique section, `Ubicación:`, another
      run and a location section. */
  function RagDescription(main: string, sep1: string, unique: string, sep2: string,
                          location: string): string {
    main + UniqueMarkerMasculine + sep1 + unique + LocationMarker + sep2 + location
  }

  /** The conditions under which the three extractors give back the parts
      of an assembled description: no `¿` or `U` in the main text, no `U`
      in the unique section, and neither section starting with a colon or
      a blank that the skip would swallow. */
  predicate RagParts(main: string, sep1: string, unique: string, sep2: string, location: string) {
    && '\U{00BF}' !in main && 'U' !in main && 'U' !in unique
    && AllColonOrSpace(sep1) && AllColonOrSpace(sep2)
    && (unique == [] || !IsColonOrSpace(unique[0]))
    && (location == [] || !IsColonOrSpace(location[0]))
  }

  /** `d` is laid out as the assembled description of the given parts. */
  predicate Layout(d: string, main: string, sep1: string, unique: string, sep2: string, location: string) {
    var a1 := |main| + |UniqueMarkerMasculine|;
    var a2 := a1 + |sep1|;
    var a3 := a2 + |unique|;
    var a4 := a3 + |LocationMarker|;
    && |d| == a4 + |sep2| + |location|
    && d[..|main|] == main && d[|main|..a1] == UniqueMarkerMasculine
    && d[a1..a2] == sep1 && d[a2..a3] == unique && d[a3..a4] == LocationMarker
    && d[a4..a4 + |sep2|] == sep2 && d[a4 + |sep2|..] == location
  }

  lemma RagLayout(main: string, sep1: string, unique: string, sep2: string, location: string)
    ensures Layout(RagDescription(main, sep1, unique, sep2, location), main, sep1, unique, sep2, location)
  {
  }

  /** The main text of an assembled description is its trimmed first part. */
  lemma RagMainRoundTrip(main: string, sep1: string, unique: string, sep2: string, location: string)
    requires RagParts(main, sep1, unique, sep2, location)
    ensures MainDescription(Some(RagDescription(main, sep1, unique, sep2, location))) == Trim(main)
  {
    var d := RagDescription(main, sep1, unique, sep2, location);
    RagLayout(main, sep1, unique, sep2, location);
    MainFromLayout(d, main, sep1, unique, sep2, location);
  }

  /** The unique section of an assembled description is its trimmed
      unique part. */
  lemma RagUniqueRoundTrip(main: string, sep1: string, unique: string, sep2: string, location: string)
    requires RagParts(main, sep1, unique, sep2, location)
    ensures UniqueSection(Some(RagDescription(main, sep1, unique, sep2, location))) == Some(Trim(unique))
  {
    var d := RagDescription(main, sep1, unique, sep2, location);
    RagLayout(main, sep1, unique, sep2, location);
    UniqueFromLayout(d, main, sep1, unique, sep2, location);
  }

  /** The location section of an assembled description is its trimmed
      last part. */
  lemma RagLocationRoundTrip(main: string, sep1: string, unique: string, sep2: string, location: string)
    requires RagParts(main, sep1, unique, sep2, location)
    ensures LocationSection(Some(RagDescription(main, sep1, unique, sep2, location))) == Some(Trim(location))
  {
    var d := RagDescription(main, sep1, unique, sep2, location);
    RagLayout(main, sep1, unique, sep2, location);
    LocationFromLayout(d, main, sep1, unique, sep2, location);
  }

  /** The first unique marker of a laid-out description is the one after
      the main text. */
  lemma MarkerIndex(d: string, main: string, sep1: string, unique: string, sep2: string, location: string)
    requires RagParts(main, sep1, unique, sep2, location)
    requires Layout(d, main, sep1, unique, sep2, location)
    ensures IndexOf(d, UniqueMarkerMasculine) == Some(|main|)
  {
    var a1 := |main| + |UniqueMarkerMasculine|;
    assert UniqueMarkerMasculine[0] == '\U{00BF}';
    forall j | 0 <= j < |main| ensures !OccursAt(d, UniqueMarkerMasculine, j) {
      assert d[j] == d[..|main|][j] == main[j];
      FirstCharMissing(d, UniqueMarkerMasculine, j);
    }
    assert OccursAt(d, UniqueMarkerMasculine, |main|);
    IndexOfIs(d, UniqueMarkerMasculine, |main|);
  }

  lemma MainFromLayout(d: string, main: string, sep1: string, unique: string, sep2: string, location: string)
    requires RagParts(main, sep1, unique, sep2, location)
    requires Layout(d, main, sep1, unique, sep2, location)
    ensures MainDescription(Some(d)) == Trim(main)
  {
    MarkerIndex(d, main, sep1, unique, sep2, location);
  }

  lemma UniqueFromLayout(d: string, main: string, sep1: string, unique: string, sep2: string, location: string)
    requires RagParts(main, sep1, unique, sep2, location)
    requires Layout(d, main, sep1, unique, sep2, location)
    ensures UniqueSection(Some(d)) == Some(Trim(unique))
  {
    var a1 := |main| + |UniqueMarkerMasculine|;
    var a2 := a1 + |sep1|;
    var a3 := a2 + |unique|;
    MarkerIndex(d, main, sep1, unique, sep2, location);
    UniqueGroupBounds(d, main, sep1, unique, sep2, location, a2, a3);
    assert d[a2..a3] == unique;
    UniqueSectionAt(d, |main|, a2, a3, unique);
  }

  /** Where the unique group of a laid-out description starts and ends. */
  lemma UniqueGroupBounds(d: string, main: string, sep1: string, unique: string, sep2: string, location: string, a2: nat, a3: nat)
    requires RagParts(main, sep1, unique, sep2, location)
    requires Layout(d, main, sep1, unique, sep2, location)
    requires a2 == |main| + |UniqueMarkerMasculine| + |sep1| && a3 == a2 + |unique|
    ensures SkipColonSpace(d, |main| + |UniqueMarkerMasculine|) == a2
    ensures IndexOfFrom(d, LocationMarker, a2) == Some(a3)
  {
    var a1 := |main| + |UniqueMarkerMasculine|;
    assert LocationMarker[0] == 'U';
    assert !IsColonOrSpace(d[a2]) by {
      if unique == [] {
        assert d[a2] == d[a3..a3 + |LocationMarker|][0] == 'U';
      } else {
        assert d[a2] == d[a2..a3][0] == unique[0];
      }
    }
    SkipRun(d, a1, sep1);
    forall j | a2 <= j < a3 ensures !OccursAt(d, LocationMarker, j) {
      assert d[j] == d[a2..a3][j - a2] == unique[j - a2];
      FirstCharMissing(d, LocationMarker, j);
    }
    assert OccursAt(d, LocationMarker, a3);
    IndexOfFromIs(d, LocationMarker, a2, a3);
  }

  lemma UniqueSectionAt(d: string, u: nat, k: nat, e: nat, group: string)
    requires d != [] && IndexOf(d, UniqueMarkerMasculine) == Some(u)
    requires u + |UniqueMarkerMasculine| <= |d|
    requires SkipColonSpace(d, u + |UniqueMarkerMasculine|) == k
    requires IndexOfFrom(d, LocationMarker, k) == Some(e)
    requires k <= e <= |d| && d[k..e] == group
    ensures UniqueSection(Some(d)) == Some(Trim(group))
  {
    assert Truthy(Some(d));
    var e' := match IndexOfFrom(d, LocationMarker, k)
              case None => |d|
              case Some(l) => l;
    assert e' == e;
  }

  lemma LocationFromLayout(d: string, main: string, sep1: string, unique: string, sep2: string, location: string)
    requires RagParts(main, sep1, unique, sep2, location)
    requires Layout(d, main, sep1, unique, sep2, location)
    ensures LocationSection(Some(d)) == Some(Trim(location))
  {
    var a3 := |main| + |UniqueMarkerMasculine| + |sep1| + |unique|;
    LocationIndex(d, main, sep1, unique, sep2, location);
    LocationSkip(d, main, sep1, unique, sep2, location);
    LocationSectionAt(d, a3, a3 + |LocationMarker| + |sep2|, location);
  }

  /** After `Ubicación` the skip swallows the colon and the second run. */
  lemma LocationSkip(d: string, main: string, sep1: string, unique: string, sep2: string, location: string)
    requires RagParts(main, sep1, unique, sep2, location)
    requires Layout(d, main, sep1, unique, sep2, location)
    ensures var a3 := |main| + |UniqueMarkerMasculine| + |sep1| + |unique|;
            SkipColonSpace(d, a3 + |LocationWord|) == a3 + |LocationMarker| + |sep2|
  {
    var a3 := |main| + |UniqueMarkerMasculine| + |sep1| + |unique|;
    var a4 := a3 + |LocationMarker|;
    assert LocationMarker == LocationWord + ":";
    var run := [':'] + sep2;
    var b := a3 + |LocationWord|;
    assert |LocationWord| == 9 && LocationMarker[9] == ':';
    assert d[b] == ':' by {
      assert d[b] == d[a3..a4][9];
    }
    assert d[b..a4 + |sep2|] == run by {
      assert b + 1 == a4;
      assert d[b..a4 + |sep2|] == [d[b]] + d[a4..a4 + |sep2|];
    }
    assert AllColonOrSpace(run);
    assert a4 + |sep2| == |d| || !IsColonOrSpace(d[a4 + |sep2|]) by {
      if location != [] {
        assert d[a4 + |sep2|] == d[a4 + |sep2|..][0] == location[0];
      }
    }
    SkipRun(d, a3 + |LocationWord|, run);
  }

  lemma LocationSectionAt(d: string, u: nat, k: nat, group: string)
    requires d != [] && IndexOf(d, LocationWord) == Some(u)
    requires u + |LocationWord| <= |d|
    requires SkipColonSpace(d, u + |LocationWord|) == k
    requires d[k..] == group
    ensures LocationSection(Some(d)) == Some(Trim(group))
  {
    assert Truthy(Some(d));
    assert LocationSection(Some(d)) == Some(Trim(d[k..]));
  }

  /** The first `Ubicación` of a laid-out description is the one after
      the unique part. */
  lemma LocationIndex(d: string, main: string, sep1: string, unique: string, sep2: string, location: string)
    requires RagParts(main, sep1, unique, sep2, location)
    requires Layout(d, main, sep1, unique, sep2, location)
    ensures IndexOf(d, LocationWord) == Some(|main| + |UniqueMarkerMasculine| + |sep1| + |unique|)
  {
    var a1 := |main| + |UniqueMarkerMasculine|;
    var a2 := a1 + |sep1|;
    var a3 := a2 + |unique|;
    assert LocationWord[0] == 'U';
    assert 'U' !in UniqueMarkerMasculine;
    forall j | 0 <= j < a3 ensures !OccursAt(d, LocationWord, j) {
      if j < |main| {
        assert d[j] == d[..|main|][j] == main[j];
      } else if j < a1 {
        assert d[j] == d[|main|..a1][j - |main|] == UniqueMarkerMasculine[j - |main|];
      } else if j < a2 {
        assert d[j] == d[a1..a2][j - a1] == sep1[j - a1];
        assert IsColonOrSpace(sep1[j - a1]);
      } else {
        assert d[j] == d[a2..a3][j - a2] == unique[j - a2];
      }
      FirstCharMissing(d, LocationWord, j);
    }
    assert d[a3..a3 + |LocationMarker|][..|LocationWord|] == LocationWord;
    assert OccursAt(d, LocationWord, a3);
    IndexOfIs(d, LocationWord, a3);
  }
}
