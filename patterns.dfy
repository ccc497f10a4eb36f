/**
 * The regular expressions of the listing scripts, each encoded as an
 * explicit search. `MatchAt(p, s, i)` says whether the pattern `p` matches
 * `s` starting exactly at `i` (with the JavaScript engine's greedy and lazy
 * choices worked out for that one pattern); `First` is `s.match(re)` for a
 * non-global pattern (the leftmost match), and `All` is the `while ((m =
 * re.exec(s)) !== null)` loop of a global pattern: every non-overlapping
 * match, in document order.
 */
module Patterns {
  import opened Text

  /** One match: where it starts and ends in the searched text, and its
      capture groups. */
  datatype Hit = Hit(start: nat, end: nat, groups: seq<string>)

  /** The character classes that patterns repeat greedily. */
  datatype CharClass = Digits | Spaces | NotQuote | WordOrHyphen

  predicate InClass(c: char, k: CharClass) {
    match k
    case Digits => IsDigit(c)
    case Spaces => IsSpace(c)
    case NotQuote => c != '"'
    case WordOrHyphen => IsWordChar(c) || c == '-'
  }

  predicate AllIn(t: string, k: CharClass) {
    forall j :: 0 <= j < |t| ==> InClass(t[j], k)
  }

  /** A text of non-quote characters holds no quote. */
  lemma NoQuoteIn(t: string)
    requires AllIn(t, NotQuote)
    ensures '"' !in t
  {
    forall j | 0 <= j < |t| ensures t[j] != '"' {
      assert InClass(t[j], NotQuote);
    }
  }

  /** No line terminator in `t`: the text a regex `.` can cover. */
  predicate OnOneLine(t: string) {
    forall j :: 0 <= j < |t| ==> !IsLineTerminator(t[j])
  }

  /** Length of the longest run of class `k` starting at `i` (a greedy `k*`). */
  function Span(s: string, i: nat, k: CharClass): (n: nat)
    requires i <= |s|
    ensures i + n <= |s|
    ensures AllIn(s[i..i + n], k)
    ensures i + n < |s| ==> !InClass(s[i + n], k)
    decreases |s| - i
  {
    if i < |s| && InClass(s[i], k) then
      var m := Span(s, i + 1, k);
      assert s[i..i + 1 + m] == [s[i]] + s[i + 1..i + 1 + m];
      1 + m
    else 0
  }

  /** A greedy run ends exactly where the class stops. */
  lemma SpanIs(s: string, i: nat, k: CharClass, n: nat)
    requires i + n <= |s| && AllIn(s[i..i + n], k)
    requires i + n < |s| ==> !InClass(s[i + n], k)
    ensures Span(s, i, k) == n
  {
    var m := Span(s, i, k);
    forall j | i <= j < i + n ensures InClass(s[j], k) {
      assert s[i..i + n][j - i] == s[j];
    }
    forall j | i <= j < i + m ensures InClass(s[j], k) {
      assert s[i..i + m][j - i] == s[j];
    }
  }

  /** The patterns, named by what they match. */
  datatype Pattern =
      /** <article class="property" id="property-(\d+)">([\s\S]*?)<\/article> */
    | Article
      /** id="property-(\d+)" */
    | PropertyId
      /** lead(keep[^"]+)" : `src="([^"]+)"`, `href="(https://…[^"]+)"` */
    | Quoted(lead: string, keep: string)
      /** <img\s+src="([^"]+)" */
    | ImgSrc
      /** <img src="(.*?)" alt="(.*?)" */
    | ImgAlt
      /** open[\s\S]*?via([\s\S]*?)close (with via empty: open([\s\S]*?)close) */
    | Block(open: string, via: string, close: string)
      /** open\s*mid([\s\S]*?)close, for a `mid` that starts with a non-space */
    | SpacedBlock(open: string, mid: string, close: string)
      /** marker<br\/?>\s*([\s\S]*?)\s*<\/div> (or only `<br>` when the slash is not optional) */
    | SpecsLine(marker: string, slashOptional: bool)
      /** open(.*?)close */
    | Line(open: string, close: string)
      /** Referencia:<\/strong>\s*([\w-]+) */
    | Reference
      /** marker\s*(.*?)\. */
    | UntilDot(marker: string)
      /** <tag[^>]*class="cls"[^>]*>([\s\S]*?)<\/tag>, or <tag[^>]*>([\s\S]*?)<\/tag> when cls is empty */
    | Element(tag: string, cls: string)
      /** <a href="(?:https:\/\/www\.vivla\.com\/es\/listings\/[\w-]+|#)"[^>]*>.*?<\/a> */
    | Link

  const ArticleOpen: string := "<article class=\"property\" id=\"property-"
  const ArticleClose: string := "</article>"
  const IdOpen: string := "id=\"property-"
  const ListingsBase: string := "https://www.vivla.com/es/listings/"
  const LinkOpen: string := "<a href=\""
  const ReferenceOpen: string := "Referencia:</strong>"

  function ArticleAt(s: string, i: nat): (r: Option<Hit>)
    ensures r.Some? ==> r.value.start == i && i < r.value.end <= |s| && |r.value.groups| == 2
    ensures r.Some? ==> var num, body := r.value.groups[0], r.value.groups[1];
      && num != [] && AllIn(num, Digits) && !Contains(body, ArticleClose)
      && s[i..r.value.end] == ArticleOpen + num + "\">" + body + ArticleClose
  {
    if !OccursAt(s, ArticleOpen, i) then None
    else
      var a := i + |ArticleOpen|;
      var n := Span(s, a, Digits);
      if n == 0 || !OccursAt(s, "\">", a + n) then None
      else
        var b := a + n + 2;
        var c := IndexOfFrom(s, ArticleClose, b);
        if c.None? then None
        else
          NoOccurrenceBetween(s, ArticleClose, b, c.value);
          GluedPieces(s, i, a, a + n, b, c.value, c.value + |ArticleClose|, ArticleOpen, "\">", ArticleClose);
          Some(Hit(i, c.value + |ArticleClose|, [s[a..a + n], s[b..c.value]]))
  }

  /** A slice made of a known opening, a run, a known separator, a body
      and a known closing is their concatenation. */
  lemma GluedPieces(s: string, i: nat, a: nat, b: nat, c: nat, d: nat, e: nat, open: string, sep: string, close: string)
    requires i <= a <= b <= c <= d <= e <= |s|
    requires s[i..a] == open && s[b..c] == sep && s[d..e] == close
    ensures s[i..e] == open + s[a..b] + sep + s[c..d] + close
  {
    FivePieces(s, i, a, b, c, d, e);
  }

  /** A slice cut at four points is the concatenation of the five pieces. */
  lemma FivePieces(s: string, i: nat, a: nat, b: nat, c: nat, d: nat, e: nat)
    requires i <= a <= b <= c <= d <= e <= |s|
    ensures s[i..e] == s[i..a] + s[a..b] + s[b..c] + s[c..d] + s[d..e]
  {
    assert s[i..e] == s[i..d] + s[d..e];
    assert s[i..d] == s[i..c] + s[c..d];
    assert s[i..c] == s[i..b] + s[b..c];
    assert s[i..b] == s[i..a] + s[a..b];
  }

  function PropertyIdAt(s: string, i: nat): (r: Option<Hit>)
    ensures r.Some? ==> r.value.start == i && i < r.value.end <= |s| && |r.value.groups| == 1
    ensures r.Some? ==> (r.value.groups[0] != [] && AllIn(r.value.groups[0], Digits)
      && s[i..r.value.end] == IdOpen + r.value.groups[0] + "\"")
  {
    if !OccursAt(s, IdOpen, i) then None
    else
      var a := i + |IdOpen|;
      var n := Span(s, a, Digits);
      if n == 0 || !OccursAt(s, "\"", a + n) then None
      else Some(Hit(i, a + n + 1, [s[a..a + n]]))
  }

  function QuotedAt(s: string, i: nat, lead: string, keep: string): (r: Option<Hit>)
    ensures r.Some? ==> r.value.start == i && i < r.value.end <= |s| && |r.value.groups| == 1
    ensures r.Some? ==> var v := r.value.groups[0];
      && |v| > |keep| && v[..|keep|] == keep && AllIn(v[|keep|..], NotQuote)
      && s[i..r.value.end] == lead + v + "\""
  {
    if !OccursAt(s, lead + keep, i) then None
    else
      var a := i + |lead|;
      var b := a + |keep|;
      var n := Span(s, b, NotQuote);
      if n == 0 || b + n == |s| then None
      else
        assert s[i..b] == lead + keep;
        assert s[a..b] == (lead + keep)[|lead|..] == keep;
        assert s[b + n] == '"';
        assert s[i..b + n + 1] == s[i..a] + s[a..b + n] + [s[b + n]];
        Some(Hit(i, b + n + 1, [s[a..b + n]]))
  }

  function ImgSrcAt(s: string, i: nat): (r: Option<Hit>)
    ensures r.Some? ==> r.value.start == i && i < r.value.end <= |s| && |r.value.groups| == 1
    ensures r.Some? ==> r.value.groups[0] != [] && AllIn(r.value.groups[0], NotQuote)
  {
    if !OccursAt(s, "<img", i) then None
    else
      var w := Span(s, i + 4, Spaces);
      if w == 0 || !OccursAt(s, "src=\"", i + 4 + w) then None
      else
        var b := i + 4 + w + 5;
        var n := Span(s, b, NotQuote);
        if n == 0 || b + n == |s| then None
        else Some(Hit(i, b + n + 1, [s[b..b + n]]))
  }

  function ImgAltAt(s: string, i: nat): (r: Option<Hit>)
    ensures r.Some? ==> r.value.start == i && i < r.value.end <= |s| && |r.value.groups| == 2
    ensures r.Some? ==> (OnOneLine(r.value.groups[0]) && OnOneLine(r.value.groups[1])
      && '"' !in r.value.groups[1])
  {
    if !OccursAt(s, "<img src=\"", i) then None
    else
      var a := i + 10;
      var p := IndexOfFrom(s, "\" alt=\"", a);
      if p.None? || !OnOneLine(s[a..p.value]) then None
      else
        var b := p.value + 7;
        var q := IndexOfFrom(s, "\"", b);
        if q.None? || !OnOneLine(s[b..q.value]) then None
        else
          NoCharBefore(s, '"', b, q.value);
          Some(Hit(i, q.value + 1, [s[a..p.value], s[b..q.value]]))
  }

  /** A stretch with no occurrence of the one-character text `[c]` holds
      no `c`. */
  lemma NoCharBefore(s: string, c: char, b: nat, q: nat)
    requires b <= q <= |s|
    requires forall j :: b <= j < q ==> !OccursAt(s, [c], j)
    ensures c !in s[b..q]
  {
    forall j | b <= j < q ensures s[j] != c {
      assert !OccursAt(s, [c], j);
      assert s[j..j + 1] == [s[j]];
    }
  }

  function BlockAt(s: string, i: nat, open: string, via: string, close: string): (r: Option<Hit>)
    ensures r.Some? ==> r.value.start == i && i <= r.value.end <= |s| && |r.value.groups| == 1
    ensures r.Some? && close != [] ==> !Contains(r.value.groups[0], close)
  {
    if !OccursAt(s, open, i) then None
    else
      var v := IndexOfFrom(s, via, i + |open|);
      if v.None? then None
      else
        var b := v.value + |via|;
        var c := IndexOfFrom(s, close, b);
        if c.None? then None
        else
          NoCloseInside(s, close, b, c.value);
          Some(Hit(i, c.value + |close|, [s[b..c.value]]))
  }

  lemma NoCloseInside(s: string, close: string, b: nat, c: nat)
    requires b <= c <= |s|
    requires forall j :: b <= j < c ==> !OccursAt(s, close, j)
    ensures close != [] ==> !Contains(s[b..c], close)
  {
    if close != [] {
      NoOccurrenceBetween(s, close, b, c);
    }
  }

  function SpacedBlockAt(s: string, i: nat, open: string, mid: string, close: string): (r: Option<Hit>)
    ensures r.Some? ==> r.value.start == i && i <= r.value.end <= |s| && |r.value.groups| == 1
  {
    if !OccursAt(s, open, i) then None
    else
      var w := Span(s, i + |open|, Spaces);
      if !OccursAt(s, mid, i + |open| + w) then None
      else
        var b := i + |open| + w + |mid|;
        var c := IndexOfFrom(s, close, b);
        if c.None? then None
        else Some(Hit(i, c.value + |close|, [s[b..c.value]]))
  }

  /** The capture of `\s*([\s\S]*?)\s*<\/div>` is the text up to the first
      `</div>` without its leading and trailing spaces. */
  function SpecsLineAt(s: string, i: nat, marker: string, slashOptional: bool): (r: Option<Hit>)
    ensures r.Some? ==> r.value.start == i && i < r.value.end <= |s| && |r.value.groups| == 1
    ensures r.Some? ==> NoSpaceAtEnds(r.value.groups[0])
  {
    var a :=
      if OccursAt(s, marker + "<br>", i) then Some(i + |marker| + 4)
      else if slashOptional && OccursAt(s, marker + "<br/>", i) then Some(i + |marker| + 5)
      else None;
    if a.None? then None
    else
      var c := IndexOfFrom(s, "</div>", a.value);
      if c.None? then None
      else Some(Hit(i, c.value + 6, [Trim(s[a.value..c.value])]))
  }

  function LineAt(s: string, i: nat, open: string, close: string): (r: Option<Hit>)
    ensures r.Some? ==> r.value.start == i && i <= r.value.end <= |s| && |r.value.groups| == 1
    ensures r.Some? ==> OnOneLine(r.value.groups[0])
  {
    if !OccursAt(s, open, i) then None
    else
      var a := i + |open|;
      var c := IndexOfFrom(s, close, a);
      if c.None? || !OnOneLine(s[a..c.value]) then None
      else Some(Hit(i, c.value + |close|, [s[a..c.value]]))
  }

  function ReferenceAt(s: string, i: nat): (r: Option<Hit>)
    ensures r.Some? ==> r.value.start == i && i < r.value.end <= |s| && |r.value.groups| == 1
    ensures r.Some? ==> r.value.groups[0] != [] && AllIn(r.value.groups[0], WordOrHyphen)
    ensures r.Some? ==> OccursAt(s, ReferenceOpen, i)
  {
    if !OccursAt(s, ReferenceOpen, i) then None
    else
      var a := i + |ReferenceOpen|;
      var w := Span(s, a, Spaces);
      var n := Span(s, a + w, WordOrHyphen);
      if n == 0 then None
      else Some(Hit(i, a + w + n, [s[a + w..a + w + n]]))
  }

  function UntilDotAt(s: string, i: nat, marker: string): (r: Option<Hit>)
    ensures r.Some? ==> r.value.start == i && i < r.value.end <= |s| && |r.value.groups| == 1
    ensures r.Some? ==> OnOneLine(r.value.groups[0]) && '.' !in r.value.groups[0]
    ensures r.Some? ==> OccursAt(s, marker, i)
  {
    if !OccursAt(s, marker, i) then None
    else
      var b := i + |marker| + Span(s, i + |marker|, Spaces);
      var d := IndexOfFrom(s, ".", b);
      if d.None? || !OnOneLine(s[b..d.value]) then None
      else
        NoCharBefore(s, '.', b, d.value);
        Some(Hit(i, d.value + 1, [s[b..d.value]]))
  }

  function ElementAt(s: string, i: nat, tag: string, cls: string): (r: Option<Hit>)
    ensures r.Some? ==> r.value.start == i && i < r.value.end <= |s| && |r.value.groups| == 1
  {
    if !OccursAt(s, "<" + tag, i) then None
    else
      var t := i + 1 + |tag|;
      var g := IndexOfFrom(s, ">", t);
      if g.None? || (cls != [] && !Contains(s[t..g.value], "class=\"" + cls + "\"")) then None
      else
        var c := IndexOfFrom(s, "</" + tag + ">", g.value + 1);
        if c.None? then None
        else Some(Hit(i, c.value + |tag| + 3, [s[g.value + 1..c.value]]))
  }

  /** Where the closing quote of a link's href stands, if the href is `#` or
      a listing URL whose slug is a non-empty run of `[\w-]`. */
  function LinkHrefEnd(s: string, a: nat): (q: Option<nat>)
    requires a <= |s|
    ensures q.Some? ==> a < q.value < |s| && s[q.value] == '"'
  {
    if OccursAt(s, ListingsBase, a) then
      var n := Span(s, a + |ListingsBase|, WordOrHyphen);
      if n > 0 && OccursAt(s, "\"", a + |ListingsBase| + n) then Some(a + |ListingsBase| + n) else None
    else if OccursAt(s, "#\"", a) then Some(a + 1)
    else None
  }

  function LinkAt(s: string, i: nat): (r: Option<Hit>)
    ensures r.Some? ==> r.value.start == i && i < r.value.end <= |s| && r.value.groups == []
    ensures r.Some? ==> OccursAt(s, LinkOpen, i)
  {
    if !OccursAt(s, LinkOpen, i) then None
    else
      var q := LinkHrefEnd(s, i + |LinkOpen|);
      if q.None? then None
      else
        var g := IndexOfFrom(s, ">", q.value + 1);
        if g.None? then None
        else
          var c := IndexOfFrom(s, "</a>", g.value + 1);
          if c.None? || !OnOneLine(s[g.value + 1..c.value]) then None
          else Some(Hit(i, c.value + 4, []))
  }

  /** Whether `p` matches `s` starting exactly at `i`. */
  function MatchAt(p: Pattern, s: string, i: nat): (r: Option<Hit>)
    ensures r.Some? ==> r.value.start == i && i <= r.value.end <= |s|
  {
    match p
    case Article => ArticleAt(s, i)
    case PropertyId => PropertyIdAt(s, i)
    case Quoted(lead, keep) => QuotedAt(s, i, lead, keep)
    case ImgSrc => ImgSrcAt(s, i)
    case ImgAlt => ImgAltAt(s, i)
    case Block(open, via, close) => BlockAt(s, i, open, via, close)
    case SpacedBlock(open, mid, close) => SpacedBlockAt(s, i, open, mid, close)
    case SpecsLine(marker, slashOptional) => SpecsLineAt(s, i, marker, slashOptional)
    case Line(open, close) => LineAt(s, i, open, close)
    case Reference => ReferenceAt(s, i)
    case UntilDot(marker) => UntilDotAt(s, i, marker)
    case Element(tag, cls) => ElementAt(s, i, tag, cls)
    case Link => LinkAt(s, i)
  }

  /** The leftmost match starting at or after `from`. */
  function FirstFrom(p: Pattern, s: string, from: nat): (r: Option<Hit>)
    ensures r.Some? ==> from <= r.value.start && MatchAt(p, s, r.value.start) == r
    ensures forall j :: from <= j && (r.None? || j < r.value.start) ==> MatchAt(p, s, j).None?
    decreases |s| + 1 - from
  {
    if from > |s| then (NoMatchPastEnd(p, s); None)
    else
      var m := MatchAt(p, s, from);
      if m.Some? then m else FirstFrom(p, s, from + 1)
  }

  lemma NoMatchPastEnd(p: Pattern, s: string)
    ensures forall j :: j > |s| ==> MatchAt(p, s, j).None?
  {
  }

  /** The leftmost match is one with no match between `from` and it. */
  lemma FirstFromIs(p: Pattern, s: string, from: nat, i: nat)
    requires from <= i && MatchAt(p, s, i).Some?
    requires forall j :: from <= j < i ==> MatchAt(p, s, j).None?
    ensures FirstFrom(p, s, from) == MatchAt(p, s, i)
  {
  }

  /** `s.match(re)` for a non-global pattern. */
  function First(p: Pattern, s: string): Option<Hit> {
    FirstFrom(p, s, 0)
  }

  /** Where a global search resumes after a match: its end, or one further
      when the match was empty. */
  function Resume(h: Hit): nat {
    if h.end == h.start then h.start + 1 else h.end
  }

  /** The matches a global `exec` loop visits from `from` on. */
  function AllFrom(p: Pattern, s: string, from: nat): (r: seq<Hit>)
    decreases |s| + 1 - from
  {
    if from > |s| then []
    else
      var m := FirstFrom(p, s, from);
      if m.None? then [] else [m.value] + AllFrom(p, s, Resume(m.value))
  }

  function All(p: Pattern, s: string): seq<Hit> {
    AllFrom(p, s, 0)
  }

  /** A global search that finds nothing more has no more matches. */
  lemma LoopDone(p: Pattern, s: string, from: nat)
    requires from <= |s| && FirstFrom(p, s, from).None?
    ensures AllFrom(p, s, from) == []
  {
  }

  /** A global search takes a non-empty match and resumes at its end. */
  lemma AllFromStep(p: Pattern, s: string, from: nat, h: Hit)
    requires from <= |s| && FirstFrom(p, s, from) == Some(h) && h.start < h.end
    ensures AllFrom(p, s, from) == [h] + AllFrom(p, s, h.end)
  {
  }

  /** The matches of a global search are genuine matches at or after `from`. */
  lemma {:induction false} AllFromMatches(p: Pattern, s: string, from: nat)
    ensures forall k :: 0 <= k < |AllFrom(p, s, from)| ==>
      from <= AllFrom(p, s, from)[k].start && MatchAt(p, s, AllFrom(p, s, from)[k].start) == Some(AllFrom(p, s, from)[k])
    decreases |s| + 1 - from
  {
    if from <= |s| {
      var m := FirstFrom(p, s, from);
      if m.Some? {
        AllFromMatches(p, s, Resume(m.value));
      }
    }
  }

  /** They come in document order without overlapping: each starts at or
      after the point where the previous one let the search resume. */
  lemma {:induction false} AllFromOrdered(p: Pattern, s: string, from: nat)
    ensures forall k :: 0 <= k < |AllFrom(p, s, from)| - 1 ==>
      Resume(AllFrom(p, s, from)[k]) <= AllFrom(p, s, from)[k + 1].start
    decreases |s| + 1 - from
  {
    if from <= |s| {
      var m := FirstFrom(p, s, from);
      if m.Some? {
        var rest := AllFrom(p, s, Resume(m.value));
        AllFromOrdered(p, s, Resume(m.value));
        AllFromMatches(p, s, Resume(m.value));
        assert AllFrom(p, s, from) == [m.value] + rest;
      }
    }
  }

  /** `j` is neither the start of one of `hits` nor inside the stretch a
      global search jumps over after one of them. */
  predicate Uncovered(hits: seq<Hit>, j: nat) {
    forall k :: 0 <= k < |hits| ==> hits[k].start != j && (j < hits[k].start || Resume(hits[k]) <= j)
  }

  lemma UncoveredTail(h: Hit, rest: seq<Hit>, j: nat)
    requires Uncovered([h] + rest, j)
    ensures Uncovered(rest, j)
  {
    forall k | 0 <= k < |rest|
      ensures rest[k].start != j && (j < rest[k].start || Resume(rest[k]) <= j)
    {
      assert rest[k] == ([h] + rest)[k + 1];
    }
  }

  /** Nothing is skipped: a position at or after `from` that the global
      search neither reports nor jumps over is not the start of a match. */
  lemma {:induction false} AllFromComplete(p: Pattern, s: string, from: nat, j: nat)
    requires from <= j && Uncovered(AllFrom(p, s, from), j)
    ensures MatchAt(p, s, j).None?
    decreases |s| + 1 - from
  {
    if from > |s| {
      NoMatchPastEnd(p, s);
    } else {
      var m := FirstFrom(p, s, from);
      if m.None? {
        assert MatchAt(p, s, j).None?;
      } else if j < m.value.start {
        assert MatchAt(p, s, j).None?;
      } else {
        assert AllFrom(p, s, from)[0] == m.value;
        assert Resume(m.value) <= j;
        var rest := AllFrom(p, s, Resume(m.value));
        assert AllFrom(p, s, from) == [m.value] + rest;
        UncoveredTail(m.value, rest, j);
        AllFromComplete(p, s, Resume(m.value), j);
      }
    }
  }

  /** The capture group `g` of every match, in order. */
  function Captures(hits: seq<Hit>, g: nat): (r: seq<string>)
    requires forall k :: 0 <= k < |hits| ==> g < |hits[k].groups|
    ensures |r| == |hits|
    ensures forall k :: 0 <= k < |hits| ==> r[k] == hits[k].groups[g]
  {
    if hits == [] then [] else [hits[0].groups[g]] + Captures(hits[1..], g)
  }

  /** Every match of `p` from `from` on has `n` capture groups. */
  predicate GroupCount(p: Pattern, n: nat) {
    match p
    case Article => n == 2
    case ImgAlt => n == 2
    case Link => n == 0
    case _ => n == 1
  }

  lemma {:induction false} AllFromGroups(p: Pattern, s: string, from: nat, n: nat)
    requires GroupCount(p, n)
    ensures forall k :: 0 <= k < |AllFrom(p, s, from)| ==> |AllFrom(p, s, from)[k].groups| == n
  {
    AllFromMatches(p, s, from);
    forall k | 0 <= k < |AllFrom(p, s, from)|
      ensures |AllFrom(p, s, from)[k].groups| == n
    {
      var h := AllFrom(p, s, from)[k];
      assert MatchAt(p, s, h.start) == Some(h);
    }
  }

  /** Every hit has at least one group. */
  predicate Grouped(hits: seq<Hit>) {
    forall k :: 0 <= k < |hits| ==> 0 < |hits[k].groups|
  }

  /** One turn of a loop that collects the first group of every match of
      a pattern with `n` groups. */
  lemma CaptureStep(p: Pattern, n: nat, s: string, last: nat, h: Hit, caps: seq<string>)
    requires GroupCount(p, n) && n >= 1
    requires last <= |s| && FirstFrom(p, s, last) == Some(h) && h.start < h.end
    ensures last < h.end <= |s| && |h.groups| == n
    ensures Grouped(AllFrom(p, s, last)) && Grouped(AllFrom(p, s, h.end))
    ensures caps + Captures(AllFrom(p, s, last), 0) ==
      (caps + [h.groups[0]]) + Captures(AllFrom(p, s, h.end), 0)
  {
    AllFromGroups(p, s, last, n);
    AllFromGroups(p, s, h.end, n);
    var rest := AllFrom(p, s, h.end);
    AllFromStep(p, s, last, h);
    assert ([h] + rest)[1..] == rest;
  }

  /** The patterns here that never match the empty string, so that a
      global `exec` loop over them always moves forward. */
  predicate Advancing(p: Pattern) {
    p.ImgSrc? || p.Quoted? || p.ImgAlt?
  }

  /** `while ((m = re.exec(s)) !== null) out.push(m[1])`: the first group
      of every match of a pattern with `n >= 1` groups, in order. */
  method ExecAll(p: Pattern, n: nat, s: string) returns (caps: seq<string>)
    requires GroupCount(p, n) && n >= 1 && Advancing(p)
    ensures Grouped(All(p, s)) && caps == Captures(All(p, s), 0)
  {
    AllFromGroups(p, s, 0, n);
    caps := [];
    var last: nat := 0;
    var m := FirstFrom(p, s, last);
    ghost var todo := All(p, s);
    while m.Some?
      invariant last <= |s| && m == FirstFrom(p, s, last)
      invariant todo == AllFrom(p, s, last) && Grouped(todo)
      invariant caps + Captures(todo, 0) == Captures(All(p, s), 0)
      decreases |s| + 1 - last
    {
      var h := m.value;
      assert MatchAt(p, s, h.start) == Some(h);
      CaptureStep(p, n, s, last, h, caps);
      caps := caps + [h.groups[0]];
      last := h.end;
      todo := AllFrom(p, s, last);
      m := FirstFrom(p, s, last);
    }
    LoopDone(p, s, last);
  }

  /** The group of the first match of a one-group pattern, if any. */
  function FirstGroup(p: Pattern, s: string): (r: Option<string>)
    requires GroupCount(p, 1)
    ensures r.None? <==> First(p, s).None?
    ensures r.Some? ==> |First(p, s).value.groups| == 1 && r.value == First(p, s).value.groups[0]
  {
    match First(p, s)
    case None => None
    case Some(h) => Some(h.groups[0])
  }

  /** `m ? m[1].trim() : ''`: the first group of the first match, trimmed,
      or `''` when nothing matches. */
  function TrimmedGroup(p: Pattern, s: string): (r: string)
    requires GroupCount(p, 1)
    ensures NoSpaceAtEnds(r)
    ensures First(p, s).None? ==> r == ""
  {
    match FirstGroup(p, s)
    case None => ""
    case Some(g) => Trim(g)
  }
}
