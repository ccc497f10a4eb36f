/**
 * The two title slugifiers. Both lower-case the title, decompose accented
 * letters and drop the combining marks; the Yucatán generator then trims,
 * turns space runs into `-`, drops everything outside `[\w-]` and collapses
 * hyphen runs, while the scraper keeps only `[a-z0-9]`, spaces and `-`,
 * trims and turns space runs into `-` without collapsing hyphens.
 */
module Slugs {
  import opened Text

  /** A combining diacritical mark, U+0300 to U+036F. */
  predicate IsCombiningMark(c: char) {
    '\U{0300}' <= c <= '\U{036F}'
  }

  /** The base letter of a precomposed lower-case Latin-1 letter, which is
      what remains of its canonical decomposition once the combining mark is
      removed; `None` for a character that does not decompose. */
  function BaseLetter(c: char): Option<char> {
    if '\U{00E0}' <= c <= '\U{00E5}' then Some('a')
    else if c == '\U{00E7}' then Some('c')
    else if '\U{00E8}' <= c <= '\U{00EB}' then Some('e')
    else if '\U{00EC}' <= c <= '\U{00EF}' then Some('i')
    else if c == '\U{00F1}' then Some('n')
    else if '\U{00F2}' <= c <= '\U{00F6}' then Some('o')
    else if '\U{00F9}' <= c <= '\U{00FC}' then Some('u')
    else if c == '\U{00FD}' || c == '\U{00FF}' then Some('y')
    else None
  }

  /** `normalize('NFD')` followed by removing the marks U+0300 to U+036F, on
      one character. */
  function FoldChar(c: char): string {
    if IsCombiningMark(c) then []
    else if BaseLetter(c).Some? then [BaseLetter(c).value]
    else [c]
  }

  /** Accents removed: every decomposable letter replaced by its base and
      every combining mark dropped; other characters stay in order. */
  function StripMarks(s: string): (r: string)
    ensures |r| <= |s|
    ensures forall i :: 0 <= i < |r| ==> !IsCombiningMark(r[i])
  {
    if s == [] then [] else FoldChar(s[0]) + StripMarks(s[1..])
  }

  /** `s.replace(/\s+/g, rep)` for a one-character replacement. */
  function ReplaceSpaceRuns(s: string, rep: char): (r: string)
    requires !IsSpace(rep)
    ensures forall i :: 0 <= i < |r| ==> !IsSpace(r[i])
    decreases |s|
  {
    if s == [] then []
    else if IsSpace(s[0]) then [rep] + ReplaceSpaceRuns(TrimStart(s), rep)
    else [s[0]] + ReplaceSpaceRuns(s[1..], rep)
  }

  /** `s.replace(/[^\w-]+/g, '')`. */
  function KeepWordAndHyphen(s: string): (r: string)
    ensures forall i :: 0 <= i < |r| ==> IsWordChar(r[i]) || r[i] == '-'
  {
    if s == [] then []
    else if IsWordChar(s[0]) || s[0] == '-' then [s[0]] + KeepWordAndHyphen(s[1..])
    else KeepWordAndHyphen(s[1..])
  }

  predicate IsSlugChar(c: char) {
    ('a' <= c <= 'z') || ('0' <= c <= '9') || c == '-'
  }

  /** `s.replace(/[^a-z0-9\s-]/g, '')`. */
  function KeepSlugAndSpace(s: string): (r: string)
    ensures forall i :: 0 <= i < |r| ==> IsSlugChar(r[i]) || IsSpace(r[i])
  {
    if s == [] then []
    else if IsSlugChar(s[0]) || IsSpace(s[0]) then [s[0]] + KeepSlugAndSpace(s[1..])
    else KeepSlugAndSpace(s[1..])
  }

  predicate NoDoubleHyphen(s: string) {
    forall i :: 0 <= i < |s| - 1 ==> !(s[i] == '-' && s[i + 1] == '-')
  }

  /** `s.replace(/--+/g, '-')`: every run of two or more hyphens becomes
      one. */
  function CollapseHyphens(s: string): (r: string)
    ensures NoDoubleHyphen(r)
    ensures r != [] ==> s != [] && r[0] == s[0]
    decreases |s|
  {
    if |s| >= 2 && s[0] == '-' && s[1] == '-' then CollapseHyphens(s[1..])
    else if s == [] then []
    else [s[0]] + CollapseHyphens(s[1..])
  }

  /** The slugify of generate-yucatan-rag-v2.js. */
  function SlugifyV2(title: string): string {
    CollapseHyphens(KeepWordAndHyphen(ReplaceSpaceRuns(Trim(StripMarks(Lower(title))), '-')))
  }

  /** The slugify of scrape.js. */
  function SlugifyScrape(title: string): string {
    ReplaceSpaceRuns(Trim(KeepSlugAndSpace(StripMarks(Lower(title)))), '-')
  }

  predicate AllSatisfy(s: string, P: char -> bool) {
    forall i :: 0 <= i < |s| ==> P(s[i])
  }

  predicate IsV2SlugChar(c: char) {
    ('a' <= c <= 'z') || ('0' <= c <= '9') || c == '_' || c == '-'
  }

  /** Printable ASCII other than the capitals: lower-casing and accent
      folding leave it alone. */
  predicate IsPlainAscii(c: char) {
    ' ' <= c <= '~' && !('A' <= c <= 'Z')
  }

  predicate IsSlugOrSpace(c: char) {
    IsSlugChar(c) || IsSpace(c)
  }

  predicate IsLowerLetter(c: char) {
    'a' <= c <= 'z'
  }

  /** A non-empty run of `[a-z]`. */
  predicate IsLowerWord(s: string) {
    s != [] && AllSatisfy(s, IsLowerLetter)
  }

  predicate NotCapital(c: char) {
    !('A' <= c <= 'Z')
  }

  /** A v2 slug is lower-case: only `[a-z0-9_-]`, with no `--`. */
  predicate V2SlugShape(s: string) {
    AllSatisfy(s, IsV2SlugChar) && NoDoubleHyphen(s)
  }

  lemma LowerHasNoCapital(s: string)
    ensures AllSatisfy(Lower(s), NotCapital)
  {
    forall i | 0 <= i < |s| ensures NotCapital(Lower(s)[i]) {
      assert Lower(s)[i] == LowerChar(s[i]);
    }
  }

  /** Each stage keeps any character property that its inserted characters
      also have. */
  lemma {:induction false} StripMarksKeeps(s: string, P: char -> bool)
    requires AllSatisfy(s, P)
    requires forall c :: 'a' <= c <= 'z' ==> P(c)
    ensures AllSatisfy(StripMarks(s), P)
  {
    if s != [] {
      StripMarksKeeps(s[1..], P);
      assert StripMarks(s) == FoldChar(s[0]) + StripMarks(s[1..]);
    }
  }

  lemma TrimKeeps(s: string, P: char -> bool)
    requires AllSatisfy(s, P)
    ensures AllSatisfy(Trim(s), P)
  {
    var x, y := TrimIsSlice(s);
    forall i | 0 <= i < |Trim(s)| ensures P(Trim(s)[i]) {
      assert Trim(s)[i] == s[x + i];
    }
  }

  lemma {:induction false} ReplaceSpaceRunsKeeps(s: string, rep: char, P: char -> bool)
    requires !IsSpace(rep) && P(rep) && AllSatisfy(s, P)
    ensures AllSatisfy(ReplaceSpaceRuns(s, rep), P)
    decreases |s|
  {
    if s != [] {
      if IsSpace(s[0]) {
        var t := TrimStart(s);
        assert forall i :: 0 <= i < |t| ==> t[i] == s[|s| - |t| + i];
        ReplaceSpaceRunsKeeps(t, rep, P);
      } else {
        ReplaceSpaceRunsKeeps(s[1..], rep, P);
      }
    }
  }

  lemma {:induction false} KeepWordAndHyphenKeeps(s: string, P: char -> bool)
    requires AllSatisfy(s, P)
    ensures AllSatisfy(KeepWordAndHyphen(s), P)
  {
    if s != [] {
      KeepWordAndHyphenKeeps(s[1..], P);
    }
  }

  lemma {:induction false} CollapseHyphensKeeps(s: string, P: char -> bool)
    requires AllSatisfy(s, P)
    ensures AllSatisfy(CollapseHyphens(s), P)
    decreases |s|
  {
    if s != [] {
      CollapseHyphensKeeps(s[1..], P);
    }
  }

  /** Each stage leaves alone a text it has nothing to do on. */
  lemma {:induction false} StripMarksOfPlain(s: string)
    requires AllSatisfy(s, IsPlainAscii)
    ensures StripMarks(s) == s
  {
    if s != [] {
      StripMarksOfPlain(s[1..]);
    }
  }

  lemma {:induction false} ReplaceSpaceRunsOfSpaceless(s: string, rep: char)
    requires !IsSpace(rep) && AllSatisfy(s, IsV2SlugChar)
    ensures ReplaceSpaceRuns(s, rep) == s
  {
    if s != [] {
      ReplaceSpaceRunsOfSpaceless(s[1..], rep);
    }
  }

  lemma {:induction false} KeepWordAndHyphenOfPlain(s: string)
    requires AllSatisfy(s, IsV2SlugChar)
    ensures KeepWordAndHyphen(s) == s
  {
    if s != [] {
      KeepWordAndHyphenOfPlain(s[1..]);
    }
  }

  lemma {:induction false} KeepSlugAndSpaceOfPlain(s: string)
    requires AllSatisfy(s, IsSlugOrSpace)
    ensures KeepSlugAndSpace(s) == s
  {
    if s != [] {
      KeepSlugAndSpaceOfPlain(s[1..]);
    }
  }

  lemma {:induction false} CollapseHyphensOfSingle(s: string)
    requires NoDoubleHyphen(s)
    ensures CollapseHyphens(s) == s
  {
    if s != [] {
      CollapseHyphensOfSingle(s[1..]);
    }
  }

  lemma LowerOfPlain(s: string)
    requires AllSatisfy(s, IsPlainAscii)
    ensures Lower(s) == s
  {
  }

  lemma TrimOfPlain(s: string)
    requires AllSatisfy(s, IsV2SlugChar)
    ensures Trim(s) == s
  {
    if s != [] {
      assert IsV2SlugChar(s[0]) && IsV2SlugChar(s[|s| - 1]);
    }
    TrimOfTrimmed(s);
  }

  /** The v2 slug uses only `[a-z0-9_-]` and never has two hyphens in a
      row. */
  lemma SlugV2Shape(title: string)
    ensures V2SlugShape(SlugifyV2(title))
  {
    var a := StripMarks(Lower(title));
    LowerHasNoCapital(title);
    StripMarksKeeps(Lower(title), NotCapital);
    TrimKeeps(a, NotCapital);
    ReplaceSpaceRunsKeeps(Trim(a), '-', NotCapital);
    var d := KeepWordAndHyphen(ReplaceSpaceRuns(Trim(a), '-'));
    KeepWordAndHyphenKeeps(ReplaceSpaceRuns(Trim(a), '-'), NotCapital);
    assert AllSatisfy(d, IsV2SlugChar);
    CollapseHyphensKeeps(d, IsV2SlugChar);
  }

  /** A scrape slug uses only `[a-z0-9-]`. */
  lemma SlugScrapeShape(title: string)
    ensures AllSatisfy(SlugifyScrape(title), IsSlugChar)
  {
    var a := KeepSlugAndSpace(StripMarks(Lower(title)));
    TrimKeeps(a, IsSlugOrSpace);
    ReplaceSpaceRunsKeeps(Trim(a), '-', IsSlugOrSpace);
  }

  lemma V2SlugCharsArePlain(s: string)
    requires AllSatisfy(s, IsV2SlugChar)
    ensures AllSatisfy(s, IsPlainAscii)
  {
    forall i | 0 <= i < |s| ensures IsPlainAscii(s[i]) {
      assert IsV2SlugChar(s[i]);
    }
  }

  lemma SlugCharsArePlain(s: string)
    requires AllSatisfy(s, IsSlugChar)
    ensures AllSatisfy(s, IsV2SlugChar) && AllSatisfy(s, IsSlugOrSpace)
  {
    forall i | 0 <= i < |s| ensures IsV2SlugChar(s[i]) && IsSlugOrSpace(s[i]) {
      assert IsSlugChar(s[i]);
    }
  }

  /** Once lower-casing and accent folding give a v2 slug, the remaining
      stages leave it alone. */
  lemma SlugifyV2OfFolded(t: string, m: string)
    requires StripMarks(Lower(t)) == m && V2SlugShape(m)
    ensures SlugifyV2(t) == m
  {
    assert Trim(m) == m by {
      TrimOfPlain(m);
    }
    assert KeepWordAndHyphen(ReplaceSpaceRuns(m, '-')) == m by {
      ReplaceSpaceRunsOfSpaceless(m, '-');
      KeepWordAndHyphenOfPlain(m);
    }
    CollapseHyphensOfSingle(m);
  }

  /** Once lower-casing and accent folding give a scrape slug, the
      remaining stages leave it alone. */
  lemma SlugifyScrapeOfFolded(t: string, m: string)
    requires StripMarks(Lower(t)) == m && AllSatisfy(m, IsSlugChar)
    ensures SlugifyScrape(t) == m
  {
    SlugCharsArePlain(m);
    assert Trim(KeepSlugAndSpace(m)) == m by {
      KeepSlugAndSpaceOfPlain(m);
      TrimOfPlain(m);
    }
    ReplaceSpaceRunsOfSpaceless(m, '-');
  }

  /** A v2 slug is a fixed point of the v2 slugifier. */
  lemma SlugifyV2OfSlug(s: string)
    requires V2SlugShape(s)
    ensures SlugifyV2(s) == s
  {
    V2SlugCharsArePlain(s);
    LowerOfPlain(s);
    StripMarksOfPlain(s);
    SlugifyV2OfFolded(s, s);
  }

  /** A scrape slug is a fixed point of the scrape slugifier. */
  lemma SlugifyScrapeOfSlug(s: string)
    requires AllSatisfy(s, IsSlugChar)
    ensures SlugifyScrape(s) == s
  {
    SlugCharsArePlain(s);
    V2SlugCharsArePlain(s);
    LowerOfPlain(s);
    StripMarksOfPlain(s);
    SlugifyScrapeOfFolded(s, s);
  }

  /** Slugifying a v2 slug again changes nothing. */
  lemma SlugV2Idempotent(title: string)
    ensures SlugifyV2(SlugifyV2(title)) == SlugifyV2(title)
  {
    SlugV2Shape(title);
    SlugifyV2OfSlug(SlugifyV2(title));
  }

  /** Slugifying a scrape slug again changes nothing. */
  lemma SlugScrapeIdempotent(title: string)
    ensures SlugifyScrape(SlugifyScrape(title)) == SlugifyScrape(title)
  {
    SlugScrapeShape(title);
    SlugifyScrapeOfSlug(SlugifyScrape(title));
  }

  /** Stages over a prefix they keep. */
  lemma {:induction false} ReplaceSpaceRunsAppend(a: string, rest: string, rep: char)
    requires !IsSpace(rep) && AllSatisfy(a, IsV2SlugChar)
    ensures ReplaceSpaceRuns(a + rest, rep) == a + ReplaceSpaceRuns(rest, rep)
  {
    if a == [] {
      assert a + rest == rest;
    } else {
      assert IsV2SlugChar(a[0]);
      assert a + rest == [a[0]] + (a[1..] + rest);
      ReplaceSpaceRunsCons(a[0], a[1..] + rest, rep);
      ReplaceSpaceRunsAppend(a[1..], rest, rep);
      assert a == [a[0]] + a[1..];
    }
  }

  lemma ReplaceSpaceRunsCons(c: char, rest: string, rep: char)
    requires !IsSpace(rep) && !IsSpace(c)
    ensures ReplaceSpaceRuns([c] + rest, rep) == [c] + ReplaceSpaceRuns(rest, rep)
  {
    assert ([c] + rest)[1..] == rest;
  }

  lemma ReplaceSpaceRunsOneSpace(b: string, rep: char)
    requires !IsSpace(rep) && (b == [] || !IsSpace(b[0]))
    ensures ReplaceSpaceRuns([' '] + b, rep) == [rep] + ReplaceSpaceRuns(b, rep)
  {
    assert ([' '] + b)[1..] == b;
  }

  lemma {:induction false} KeepWordAndHyphenAppend(a: string, rest: string)
    requires AllSatisfy(a, IsV2SlugChar)
    ensures KeepWordAndHyphen(a + rest) == a + KeepWordAndHyphen(rest)
  {
    if a == [] {
      assert a + rest == rest;
    } else {
      assert (a + rest)[0] == a[0] && IsV2SlugChar(a[0]);
      assert (a + rest)[1..] == a[1..] + rest;
      KeepWordAndHyphenAppend(a[1..], rest);
      assert KeepWordAndHyphen(a + rest) == [a[0]] + KeepWordAndHyphen(a[1..] + rest);
      assert a == [a[0]] + a[1..];
    }
  }

  lemma {:induction false} KeepSlugAndSpaceAppend(a: string, rest: string)
    requires AllSatisfy(a, IsSlugOrSpace)
    ensures KeepSlugAndSpace(a + rest) == a + KeepSlugAndSpace(rest)
  {
    if a == [] {
      assert a + rest == rest;
    } else {
      assert (a + rest)[0] == a[0] && IsSlugOrSpace(a[0]);
      assert (a + rest)[1..] == a[1..] + rest;
      KeepSlugAndSpaceAppend(a[1..], rest);
      assert KeepSlugAndSpace(a + rest) == [a[0]] + KeepSlugAndSpace(a[1..] + rest);
      assert a == [a[0]] + a[1..];
    }
  }

  lemma {:induction false} CollapseHyphensAppend(a: string, rest: string)
    requires AllSatisfy(a, IsLowerLetter)
    ensures CollapseHyphens(a + rest) == a + CollapseHyphens(rest)
  {
    if a == [] {
      assert a + rest == rest;
    } else {
      assert (a + rest)[0] == a[0] && IsLowerLetter(a[0]);
      assert (a + rest)[1..] == a[1..] + rest;
      CollapseHyphensAppend(a[1..], rest);
      assert CollapseHyphens(a + rest) == [a[0]] + CollapseHyphens(a[1..] + rest);
      assert a == [a[0]] + a[1..];
    }
  }

  /** Three hyphens before a word collapse to one. */
  lemma CollapseTripleHyphen(b: string)
    requires IsLowerWord(b)
    ensures CollapseHyphens("---" + b) == "-" + b
  {
    assert IsLowerLetter(b[0]);
    var t1, t2, t3 := "---" + b, "--" + b, "-" + b;
    assert t1[0] == '-' && t1[1] == '-' && t1[1..] == t2;
    assert t2[0] == '-' && t2[1] == '-' && t2[1..] == t3;
    assert t3[0] == '-' && t3[1] == b[0] && t3[1..] == b;
    CollapseHyphensOfSingle(b);
    assert CollapseHyphens(t3) == [t3[0]] + CollapseHyphens(b);
    assert CollapseHyphens(t2) == CollapseHyphens(t3);
    assert CollapseHyphens(t1) == CollapseHyphens(t2);
  }

  lemma AllSatisfyConcat(x: string, y: string, P: char -> bool)
    requires AllSatisfy(x, P) && AllSatisfy(y, P)
    ensures AllSatisfy(x + y, P)
  {
    forall i | 0 <= i < |x + y| ensures P((x + y)[i]) {
      if i < |x| {
        assert (x + y)[i] == x[i];
      } else {
        assert (x + y)[i] == y[i - |x|];
      }
    }
  }

  /** What a lower-case word satisfies. */
  lemma LowerWordFacts(a: string)
    requires IsLowerWord(a)
    ensures AllSatisfy(a, IsV2SlugChar) && AllSatisfy(a, IsPlainAscii)
    ensures AllSatisfy(a, IsSlugOrSpace)
    ensures !IsSpace(a[0]) && !IsSpace(a[|a| - 1])
  {
    forall i | 0 <= i < |a|
      ensures IsV2SlugChar(a[i]) && IsPlainAscii(a[i]) && IsSlugOrSpace(a[i])
    {
      assert IsLowerLetter(a[i]);
    }
    assert IsLowerLetter(a[0]) && IsLowerLetter(a[|a| - 1]);
  }

  /** Words separated by single blanks: each blank becomes a hyphen. */
  lemma TwoWordsHyphenated(a: string, b: string)
    requires IsLowerWord(a) && IsLowerWord(b)
    ensures ReplaceSpaceRuns(a + " " + b, '-') == a + "-" + b
  {
    LowerWordFacts(a);
    LowerWordFacts(b);
    assert ReplaceSpaceRuns(a + " " + b, '-') == a + ReplaceSpaceRuns([' '] + b, '-') by {
      assert a + " " + b == a + ([' '] + b);
      ReplaceSpaceRunsAppend(a, [' '] + b, '-');
    }
    BlankBeforeWord(b);
    assert a + ("-" + b) == a + "-" + b;
  }

  lemma BlankBeforeWord(b: string)
    requires IsLowerWord(b)
    ensures ReplaceSpaceRuns([' '] + b, '-') == "-" + b
  {
    LowerWordFacts(b);
    ReplaceSpaceRunsOneSpace(b, '-');
    ReplaceSpaceRunsOfSpaceless(b, '-');
  }

  lemma DashBlankBeforeWord(b: string)
    requires IsLowerWord(b)
    ensures ReplaceSpaceRuns("- " + b, '-') == "--" + b
  {
    Regroup2('-', ' ', b);
    ReplaceSpaceRunsCons('-', [' '] + b, '-');
    BlankBeforeWord(b);
    Regroup2('-', '-', b);
  }

  lemma Regroup2(c: char, d: char, b: string)
    ensures [c] + ([d] + b) == [c, d] + b
  {
  }

  lemma Regroup3(c: char, d: char, e: char, b: string)
    ensures [c] + ([d, e] + b) == [c, d, e] + b
  {
  }

  lemma SpacedDashHyphenated(a: string, b: string)
    requires IsLowerWord(a) && IsLowerWord(b)
    ensures ReplaceSpaceRuns(a + " - " + b, '-') == a + "---" + b
  {
    var t := "- " + b;
    assert a + " - " + b == a + ([' '] + t);
    WordThenRest(a, [' '] + t);
    BlankDashBlankBeforeWord(b);
    assert a + ("---" + b) == a + "---" + b;
  }

  /** A lower-case word passes the run replacement unchanged, whatever
      follows it. */
  lemma WordThenRest(a: string, rest: string)
    requires IsLowerWord(a)
    ensures ReplaceSpaceRuns(a + rest, '-') == a + ReplaceSpaceRuns(rest, '-')
  {
    LowerWordFacts(a);
    ReplaceSpaceRunsAppend(a, rest, '-');
  }

  lemma BlankDashBlankBeforeWord(b: string)
    requires IsLowerWord(b)
    ensures ReplaceSpaceRuns([' '] + ("- " + b), '-') == "---" + b
  {
    ReplaceSpaceRunsOneSpace("- " + b, '-');
    DashBlankBeforeWord(b);
    Regroup3('-', '-', '-', b);
  }

  /** The text passes lower-casing, accent folding and trimming unchanged. */
  lemma FoldsToItself(t: string)
    requires AllSatisfy(t, IsPlainAscii)
    requires t != [] && !IsSpace(t[0]) && !IsSpace(t[|t| - 1])
    ensures StripMarks(Lower(t)) == t && Trim(t) == t
  {
    LowerOfPlain(t);
    StripMarksOfPlain(t);
    TrimOfTrimmed(t);
  }

  /** Two lower-case words around a separator made of blanks and hyphens:
      the text folds to itself and survives the scraper's filter. */
  lemma WordsAroundFold(a: string, sep: string, b: string)
    requires IsLowerWord(a) && IsLowerWord(b)
    requires AllSatisfy(sep, IsSlugOrSpace) && AllSatisfy(sep, IsPlainAscii)
    ensures StripMarks(Lower(a + sep + b)) == a + sep + b
    ensures Trim(a + sep + b) == a + sep + b
    ensures KeepSlugAndSpace(a + sep + b) == a + sep + b
  {
    LowerWordFacts(a);
    LowerWordFacts(b);
    var t := a + sep + b;
    AllSatisfyConcat(a, sep, IsPlainAscii);
    AllSatisfyConcat(a + sep, b, IsPlainAscii);
    AllSatisfyConcat(a, sep, IsSlugOrSpace);
    AllSatisfyConcat(a + sep, b, IsSlugOrSpace);
    assert t[0] == a[0] && t[|t| - 1] == b[|b| - 1];
    FoldsToItself(t);
    KeepSlugAndSpaceOfPlain(t);
  }

  /** Hyphens between two words survive the `[^\w-]` filter and collapse
      to one. */
  lemma CollapseBetweenWords(a: string, hyphens: string, b: string)
    requires IsLowerWord(a) && IsLowerWord(b)
    requires hyphens == "-" || hyphens == "---"
    ensures KeepWordAndHyphen(a + hyphens + b) == a + hyphens + b
    ensures CollapseHyphens(a + hyphens + b) == a + "-" + b
  {
    KeepBetweenWords(a, hyphens, b);
    LowerWordFacts(a);
    assert a + hyphens + b == a + (hyphens + b);
    CollapseHyphensAppend(a, hyphens + b);
    if hyphens == "-" {
      SingleHyphenBeforeWord(b);
    } else {
      CollapseTripleHyphen(b);
    }
    assert a + ("-" + b) == a + "-" + b;
  }

  lemma KeepBetweenWords(a: string, hyphens: string, b: string)
    requires IsLowerWord(a) && IsLowerWord(b)
    requires hyphens == "-" || hyphens == "---"
    ensures KeepWordAndHyphen(a + hyphens + b) == a + hyphens + b
  {
    LowerWordFacts(a);
    LowerWordFacts(b);
    assert AllSatisfy(hyphens, IsV2SlugChar);
    AllSatisfyConcat(a, hyphens, IsV2SlugChar);
    AllSatisfyConcat(a + hyphens, b, IsV2SlugChar);
    KeepWordAndHyphenOfPlain(a + hyphens + b);
  }

  lemma SingleHyphenBeforeWord(b: string)
    requires IsLowerWord(b)
    ensures CollapseHyphens("-" + b) == "-" + b
  {
    var t := "-" + b;
    assert IsLowerLetter(b[0]);
    assert t[0] == '-' && t[1] == b[0] && t[1..] == b;
    CollapseHyphensOfSingle(b);
    assert CollapseHyphens(t) == [t[0]] + CollapseHyphens(b);
  }

  /** The two slugifiers agree on lower-case words separated by a single
      blank ... */
  lemma SlugsAgreeOnPlainTitle(a: string, b: string)
    requires IsLowerWord(a) && IsLowerWord(b)
    ensures SlugifyV2(a + " " + b) == a + "-" + b
    ensures SlugifyScrape(a + " " + b) == a + "-" + b
  {
    WordsAroundFold(a, " ", b);
    TwoWordsHyphenated(a, b);
    CollapseBetweenWords(a, "-", b);
  }

  /** ... but only the v2 one collapses the hyphens around a spaced dash. */
  lemma SpacedDash(a: string, b: string)
    requires IsLowerWord(a) && IsLowerWord(b)
    ensures SlugifyV2(a + " - " + b) == a + "-" + b
    ensures SlugifyScrape(a + " - " + b) == a + "---" + b
  {
    WordsAroundFold(a, " - ", b);
    SpacedDashHyphenated(a, b);
    CollapseBetweenWords(a, "---", b);
  }

  /** A title ending in a blank and a dropped character (`?`, `!`, `.` and
      the like) gives a v2 slug ending in a hyphen, while the scraper trims
      the blank before hyphenating and gives none. */
  lemma TrailingHyphen(a: string, c: char)
    requires IsLowerWord(a)
    requires IsPlainAscii(c) && !IsWordChar(c) && c != '-' && c != ' '
    ensures SlugifyV2(a + " " + [c]) == a + "-"
    ensures SlugifyScrape(a + " " + [c]) == a
  {
    TrailingFolds(a, c);
    TrailingV2(a, c);
    TrailingScrape(a, c);
  }

  lemma TrailingFolds(a: string, c: char)
    requires IsLowerWord(a) && IsPlainAscii(c) && c != ' '
    ensures StripMarks(Lower(a + " " + [c])) == a + " " + [c]
    ensures Trim(a + " " + [c]) == a + " " + [c]
  {
    LowerWordFacts(a);
    var t := a + " " + [c];
    assert AllSatisfy(" " + [c], IsPlainAscii);
    assert t == a + (" " + [c]);
    AllSatisfyConcat(a, " " + [c], IsPlainAscii);
    assert t[0] == a[0] && t[|t| - 1] == c;
    FoldsToItself(t);
  }

  lemma TrailingV2(a: string, c: char)
    requires IsLowerWord(a)
    requires IsPlainAscii(c) && !IsWordChar(c) && c != '-' && c != ' '
    ensures CollapseHyphens(KeepWordAndHyphen(ReplaceSpaceRuns(a + " " + [c], '-'))) == a + "-"
  {
    LowerWordFacts(a);
    assert ReplaceSpaceRuns(a + " " + [c], '-') == a + "-" + [c] by {
      assert a + " " + [c] == a + ([' '] + [c]);
      ReplaceSpaceRunsAppend(a, [' '] + [c], '-');
      ReplaceSpaceRunsOneSpace([c], '-');
      assert ReplaceSpaceRuns([c], '-') == [c];
    }
    assert KeepWordAndHyphen(a + "-" + [c]) == a + "-" by {
      assert AllSatisfy("-", IsV2SlugChar);
      AllSatisfyConcat(a, "-", IsV2SlugChar);
      KeepWordAndHyphenAppend(a + "-", [c]);
      assert KeepWordAndHyphen([c]) == [];
      assert (a + "-") + [] == a + "-";
    }
    assert CollapseHyphens(a + "-") == a + "-" by {
      CollapseHyphensAppend(a, "-");
    }
  }

  lemma TrailingScrape(a: string, c: char)
    requires IsLowerWord(a)
    requires IsPlainAscii(c) && !IsWordChar(c) && c != '-' && c != ' '
    ensures ReplaceSpaceRuns(Trim(KeepSlugAndSpace(a + " " + [c])), '-') == a
  {
    LowerWordFacts(a);
    assert KeepSlugAndSpace(a + " " + [c]) == a + " " by {
      assert AllSatisfy(" ", IsSlugOrSpace);
      AllSatisfyConcat(a, " ", IsSlugOrSpace);
      KeepSlugAndSpaceAppend(a + " ", [c]);
      assert KeepSlugAndSpace([c]) == [];
      assert (a + " ") + [] == a + " ";
    }
    TrimOfWordAndBlank(a);
    ReplaceSpaceRunsOfSpaceless(a, '-');
  }

  lemma TrimOfWordAndBlank(a: string)
    requires IsLowerWord(a)
    ensures Trim(a + " ") == a
  {
    LowerWordFacts(a);
    var t := a + " ";
    assert t[0] == a[0];
    assert TrimStart(t) == t;
    assert t[..|t| - 1] == a;
    assert TrimEnd(a) == a;
    assert TrimEnd(t) == TrimEnd(a);
  }

  lemma {:induction false} StripMarksConcat(x: string, y: string)
    ensures StripMarks(x + y) == StripMarks(x) + StripMarks(y)
  {
    if x == [] {
      assert x + y == y;
    } else {
      assert (x + y)[0] == x[0] && (x + y)[1..] == x[1..] + y;
      StripMarksConcat(x[1..], y);
    }
  }

  /** An accented letter between two lower-case words is folded to its base
      letter, by both slugifiers. */
  lemma AccentFolded(a: string, b: string)
    requires IsLowerWord(a) && IsLowerWord(b)
    ensures SlugifyV2(a + "\U{00E9}" + b) == a + "e" + b
    ensures SlugifyScrape(a + "\U{00E9}" + b) == a + "e" + b
  {
    var t := a + "\U{00E9}" + b;
    var m := a + "e" + b;
    FoldAccent(a, b);
    WordWithE(a, b);
    SlugifyV2OfFolded(t, m);
    SlugifyScrapeOfFolded(t, m);
  }

  lemma FoldAccent(a: string, b: string)
    requires IsLowerWord(a) && IsLowerWord(b)
    ensures StripMarks(Lower(a + "\U{00E9}" + b)) == a + "e" + b
  {
    LowerOfAccented(a, b);
    LowerWordFacts(a);
    LowerWordFacts(b);
    StripMarksConcat(a + "\U{00E9}", b);
    StripMarksConcat(a, "\U{00E9}");
    StripMarksOfPlain(a);
    StripMarksOfPlain(b);
    assert StripMarks("\U{00E9}") == "e";
  }

  /** Lower-casing leaves `é` and the lower-case words around it alone. */
  lemma LowerOfAccented(a: string, b: string)
    requires IsLowerWord(a) && IsLowerWord(b)
    ensures Lower(a + "\U{00E9}" + b) == a + "\U{00E9}" + b
  {
    var t := a + "\U{00E9}" + b;
    LowerWordFacts(a);
    LowerWordFacts(b);
    forall i | 0 <= i < |t| ensures Lower(t)[i] == t[i] {
      if i < |a| {
        assert t[i] == a[i] && IsPlainAscii(a[i]);
      } else if i > |a| {
        assert t[i] == b[i - |a| - 1] && IsPlainAscii(b[i - |a| - 1]);
      }
    }
  }

  lemma WordWithE(a: string, b: string)
    requires IsLowerWord(a) && IsLowerWord(b)
    ensures IsLowerWord(a + "e" + b) && AllSatisfy(a + "e" + b, IsSlugChar)
    ensures V2SlugShape(a + "e" + b)
  {
    var m := a + "e" + b;
    assert AllSatisfy("e", IsLowerLetter);
    AllSatisfyConcat(a, "e", IsLowerLetter);
    AllSatisfyConcat(a + "e", b, IsLowerLetter);
    forall i | 0 <= i < |m| ensures IsSlugChar(m[i]) && IsV2SlugChar(m[i]) {
      assert IsLowerLetter(m[i]);
    }
  }

  /** An empty title gives an empty slug, with no fallback. */
  lemma EmptyTitle()
    ensures SlugifyV2("") == "" && SlugifyScrape("") == ""
  {
    TrimOfTrimmed("");
  }
}
