/**
 * The JavaScript string operations the listing scripts rely on, stated over
 * `string` (a sequence of Unicode scalar values): `trim`, `indexOf`,
 * `startsWith`, `split` with a literal separator, `join`, `replace` with a
 * literal pattern (first occurrence, or every occurrence for a global
 * pattern), `substring` with its clamping and argument swap, and the
 * `toLowerCase` of the Latin-1 range.
 */
module Text {

  datatype Option<+T> = None | Some(value: T)

  /** JavaScript truthiness of an optional string: set and non-empty. */
  predicate Truthy(o: Option<string>) {
    o.Some? && o.value != []
  }

  /** JavaScript's WhiteSpace and LineTerminator code points: the set that
      `String.prototype.trim` removes and that the regex class `\s` matches. */
  predicate IsSpace(c: char) {
    || c == '\t' || c == '\n' || c == '\U{000B}' || c == '\U{000C}' || c == '\r' || c == ' '
    || c == '\U{00A0}' || c == '\U{1680}' || ('\U{2000}' <= c <= '\U{200A}')
    || c == '\U{2028}' || c == '\U{2029}' || c == '\U{202F}' || c == '\U{205F}'
    || c == '\U{3000}' || c == '\U{FEFF}'
  }

  /** The line terminators, which the regex `.` does not match. */
  predicate IsLineTerminator(c: char) {
    c == '\n' || c == '\r' || c == '\U{2028}' || c == '\U{2029}'
  }

  /** The regex class `\w` (ASCII letters, digits and underscore). */
  predicate IsWordChar(c: char) {
    ('a' <= c <= 'z') || ('A' <= c <= 'Z') || ('0' <= c <= '9') || c == '_'
  }

  predicate IsDigit(c: char) {
    '0' <= c <= '9'
  }

  predicate NoSpaceAtEnds(s: string) {
    s == [] || (!IsSpace(s[0]) && !IsSpace(s[|s| - 1]))
  }

  function TrimStart(s: string): (r: string)
    ensures |r| <= |s| && r == s[|s| - |r|..]
    ensures r == [] || !IsSpace(r[0])
    ensures forall i :: 0 <= i < |s| - |r| ==> IsSpace(s[i])
  {
    if s != [] && IsSpace(s[0]) then
      var t := TrimStart(s[1..]);
      assert s[1..][|s| - 1 - |t|..] == s[|s| - |t|..];
      assert forall i :: 1 <= i < |s| - |t| ==> s[i] == s[1..][i - 1];
      t
    else s
  }

  function TrimEnd(s: string): (r: string)
    ensures |r| <= |s| && r == s[..|r|]
    ensures r == [] || !IsSpace(r[|r| - 1])
    ensures forall i :: |r| <= i < |s| ==> IsSpace(s[i])
  {
    if s != [] && IsSpace(s[|s| - 1]) then TrimEnd(s[..|s| - 1]) else s
  }

  /** `String.prototype.trim`. */
  function Trim(s: string): (r: string)
    ensures NoSpaceAtEnds(r)
  {
    var t := TrimStart(s);
    TrimEnd(t)
  }

  /** What trimming keeps is a slice of the input. */
  lemma TrimIsSlice(s: string) returns (a: nat, b: nat)
    ensures a <= b <= |s| && Trim(s) == s[a..b]
  {
    var t := TrimStart(s);
    var r := TrimEnd(t);
    a := |s| - |t|;
    b := a + |r|;
    assert t == s[a..] && r == t[..|r|];
  }

  /** Trimming removes exactly the leading and trailing spaces. */
  lemma {:induction false} TrimOfTrimmed(s: string)
    requires NoSpaceAtEnds(s)
    ensures Trim(s) == s
  {
  }

  lemma TrimIdempotent(s: string)
    ensures Trim(Trim(s)) == Trim(s)
  {
    TrimOfTrimmed(Trim(s));
  }

  /** `p` occurs in `s` at index `i`. */
  predicate OccursAt(s: string, p: string, i: nat) {
    i + |p| <= |s| && s[i..i + |p|] == p
  }

  predicate Contains(s: string, p: string) {
    exists i :: 0 <= i <= |s| && OccursAt(s, p, i)
  }

  function Last<T>(xs: seq<T>): T
    requires xs != []
  {
    xs[|xs| - 1]
  }

  /** A string that does not contain the one-character string `[c]` has
      no `c` at any position. */
  lemma NotContainsChar(s: string, c: char)
    requires !Contains(s, [c])
    ensures forall i :: 0 <= i < |s| ==> s[i] != c
  {
    forall i | 0 <= i < |s| ensures s[i] != c {
      assert s[i..i + 1] == [s[i]];
      assert !OccursAt(s, [c], i);
    }
  }

  predicate StartsWith(s: string, p: string) {
    |p| <= |s| && s[..|p|] == p
  }

  /** `s.indexOf(p, from)`: the first occurrence of `p` at or after `from`. */
  function IndexOfFrom(s: string, p: string, from: nat): (r: Option<nat>)
    ensures r.Some? ==> from <= r.value && OccursAt(s, p, r.value)
    ensures forall j :: from <= j && (r.None? || j < r.value) ==> !OccursAt(s, p, j)
    decreases |s| - from
  {
    if from + |p| > |s| then None
    else if OccursAt(s, p, from) then Some(from)
    else IndexOfFrom(s, p, from + 1)
  }

  function IndexOf(s: string, p: string): (r: Option<nat>)
    ensures r.None? <==> !Contains(s, p)
    ensures r.Some? ==> OccursAt(s, p, r.value) && forall j :: 0 <= j < r.value ==> !OccursAt(s, p, j)
  {
    IndexOfFrom(s, p, 0)
  }

  /** JavaScript's `substring(a, b)`: both ends are clamped into the string
      and swapped when they are out of order. */
  function JsSubstring(s: string, a: int, b: int): (r: string)
    ensures 0 <= a <= b <= |s| ==> r == s[a..b]
    ensures |r| <= |s|
  {
    var a' := if a < 0 then 0 else if a > |s| then |s| else a;
    var b' := if b < 0 then 0 else if b > |s| then |s| else b;
    if a' <= b' then s[a'..b'] else s[b'..a']
  }

  /** `s.split(sep)` for a non-empty literal separator. */
  function Split(s: string, sep: string): (r: seq<string>)
    requires sep != []
    ensures |r| >= 1
    decreases |s|
  {
    match IndexOf(s, sep)
    case None => [s]
    case Some(i) => [s[..i]] + Split(s[i + |sep|..], sep)
  }

  /** No piece of a split contains the separator. */
  lemma {:induction false} SplitPiecesFree(s: string, sep: string)
    requires sep != []
    ensures forall k :: 0 <= k < |Split(s, sep)| ==> !Contains(Split(s, sep)[k], sep)
    decreases |s|
  {
    match IndexOf(s, sep)
    case None =>
    case Some(i) =>
      NoOccurrenceInPrefix(s, sep, i);
      SplitPiecesFree(s[i + |sep|..], sep);
  }

  lemma NoOccurrenceInPrefix(s: string, p: string, i: nat)
    requires p != [] && i <= |s|
    requires forall j :: 0 <= j < i ==> !OccursAt(s, p, j)
    ensures !Contains(s[..i], p)
  {
    forall j | 0 <= j <= i && OccursAt(s[..i], p, j)
      ensures false
    {
      assert s[..i][j..j + |p|] == s[j..j + |p|];
      assert OccursAt(s, p, j);
    }
  }

  lemma NoOccurrenceBetween(s: string, p: string, b: nat, c: nat)
    requires p != [] && b <= c <= |s|
    requires forall j :: b <= j < c ==> !OccursAt(s, p, j)
    ensures !Contains(s[b..c], p)
  {
    forall j | 0 <= j <= c - b
      ensures !OccursAt(s[b..c], p, j)
    {
      if j + |p| <= c - b {
        var u, v := s[b..c][j..j + |p|], s[b + j..b + j + |p|];
        forall k | 0 <= k < |p| ensures u[k] == v[k] {
        }
        assert u == v;
        assert !OccursAt(s, p, b + j);
      }
    }
  }

  /** `parts.join(sep)`. */
  function Join(parts: seq<string>, sep: string): (r: string)
    ensures |parts| == 1 ==> r == parts[0]
  {
    if |parts| == 0 then []
    else if |parts| == 1 then parts[0]
    else parts[0] + sep + Join(parts[1..], sep)
  }

  lemma JoinCons(x: string, xs: seq<string>, sep: string)
    requires |xs| >= 1
    ensures Join([x] + xs, sep) == x + sep + Join(xs, sep)
  {
    assert ([x] + xs)[1..] == xs;
  }

  lemma Reassemble(s: string, i: nat, sep: string)
    requires OccursAt(s, sep, i)
    ensures s == s[..i] + sep + s[i + |sep|..]
  {
  }

  /** Splitting and re-joining with the same separator gives back the input. */
  lemma {:induction false} JoinSplit(s: string, sep: string)
    requires sep != []
    ensures Join(Split(s, sep), sep) == s
    decreases |s|
  {
    var r := IndexOf(s, sep);
    if r.Some? {
      var i := r.value;
      var rest := s[i + |sep|..];
      JoinSplit(rest, sep);
      JoinCons(s[..i], Split(rest, sep), sep);
      Reassemble(s, i, sep);
    }
  }

  /** Joining pieces that are free of a character occurring exactly once in
      the separator, and splitting again, gives back the pieces. */
  lemma {:induction false} SplitJoin(parts: seq<string>, sep: string, m: nat)
    requires |parts| >= 1 && m < |sep|
    requires forall i :: 0 <= i < |sep| && i != m ==> sep[i] != sep[m]
    requires forall k :: 0 <= k < |parts| ==> sep[m] !in parts[k]
    ensures Split(Join(parts, sep), sep) == parts
  {
    if |parts| == 1 {
      SplitOfFree(parts[0], sep, m);
    } else {
      var rest := Join(parts[1..], sep);
      assert Join(parts, sep) == parts[0] + sep + rest;
      SplitJoinStep(parts[0], sep, rest, m);
      SplitJoin(parts[1..], sep, m);
      assert parts == [parts[0]] + parts[1..];
    }
  }

  /** A string without the marker character is split into itself. */
  lemma SplitOfFree(s: string, sep: string, m: nat)
    requires m < |sep| && sep[m] !in s
    ensures Split(s, sep) == [s]
  {
    forall j | 0 <= j <= |s| ensures !OccursAt(s, sep, j) {
      MarkerOccurrence(s, sep, m, j);
    }
  }

  /** The first separator after a marker-free head is the one right after
      it. */
  lemma SplitJoinStep(head: string, sep: string, rest: string, m: nat)
    requires m < |sep|
    requires forall i :: 0 <= i < |sep| && i != m ==> sep[i] != sep[m]
    requires sep[m] !in head
    ensures Split(head + sep + rest, sep) == [head] + Split(rest, sep)
  {
    var s := head + sep + rest;
    assert OccursAt(s, sep, |head|);
    forall j | 0 <= j < |head| ensures !OccursAt(s, sep, j) {
      MarkerInJoin(head, sep, rest, m, j);
    }
    assert IndexOf(s, sep) == Some(|head|);
    assert s[..|head|] == head;
    assert s[|head| + |sep|..] == rest;
  }

  lemma SingleCharOccurrence(s: string, c: char, j: nat)
    ensures OccursAt(s, [c], j) ==> c in s
  {
    if OccursAt(s, [c], j) {
      assert s[j..j + 1][0] == s[j];
    }
  }

  lemma MarkerOccurrence(s: string, sep: string, m: nat, j: nat)
    requires m < |sep|
    ensures OccursAt(s, sep, j) ==> sep[m] in s
  {
    if OccursAt(s, sep, j) {
      assert s[j..j + |sep|][m] == s[j + m];
    }
  }

  lemma MarkerInJoin(head: string, sep: string, rest: string, m: nat, j: nat)
    requires m < |sep| && j < |head|
    requires forall i :: 0 <= i < |sep| && i != m ==> sep[i] != sep[m]
    requires sep[m] !in head
    ensures !OccursAt(head + sep + rest, sep, j)
  {
    var s := head + sep + rest;
    if j + |sep| <= |s| {
      if j + m < |head| {
        assert s[j + m] == head[j + m];
      } else {
        assert s[j + m] == sep[j + m - |head|];
      }
      assert s[j..j + |sep|][m] == s[j + m];
    }
  }

  /** The first occurrence is the one with none before it. */
  lemma IndexOfIs(s: string, p: string, i: nat)
    requires OccursAt(s, p, i)
    requires forall j :: 0 <= j < i ==> !OccursAt(s, p, j)
    ensures IndexOf(s, p) == Some(i)
  {
    assert Contains(s, p);
  }

  /** `indexOf(p, from)` finds an occurrence with none between `from` and
      it. */
  lemma IndexOfFromIs(s: string, p: string, from: nat, i: nat)
    requires from <= i && OccursAt(s, p, i)
    requires forall j :: from <= j < i ==> !OccursAt(s, p, j)
    ensures IndexOfFrom(s, p, from) == Some(i)
  {
  }

  /** A pattern cannot start where its first character is missing. */
  lemma FirstCharMissing(s: string, p: string, j: nat)
    requires p != [] && (j >= |s| || s[j] != p[0])
    ensures !OccursAt(s, p, j)
  {
    if j + |p| <= |s| {
      assert s[j..j + |p|][0] == s[j];
    }
  }

  /** A pattern cannot start inside a text free of its first character. */
  lemma FirstCharBlocks(head: string, p: string, tail: string, j: nat)
    requires p != [] && p[0] !in head && j < |head|
    ensures !OccursAt(head + tail, p, j)
  {
    var s := head + tail;
    if j + |p| <= |s| {
      assert s[j..j + |p|][0] == head[j] != p[0];
    }
  }

  /** Locating a separator whose first character the head lacks. */
  lemma SplitAt(head: string, p: string, tail: string)
    requires p != [] && p[0] !in head
    ensures IndexOf(head + p + tail, p) == Some(|head|)
    ensures (head + p + tail)[..|head|] == head
    ensures (head + p + tail)[|head| + |p|..] == tail
  {
    var s := head + p + tail;
    assert s[|head|..|head| + |p|] == p;
    forall j | 0 <= j < |head| ensures !OccursAt(s, p, j) {
      assert s == head + (p + tail);
      FirstCharBlocks(head, p, p + tail, j);
    }
    IndexOfIs(s, p, |head|);
  }

  /** A text without the character `c` does not contain `[c]`. */
  lemma NoCharInText(s: string, c: char)
    requires c !in s
    ensures !Contains(s, [c])
  {
    forall i | 0 <= i <= |s| ensures !OccursAt(s, [c], i) {
      if i + 1 <= |s| {
        assert s[i..i + 1][0] == s[i];
      }
    }
  }

  /** A slice of a text without `p` has no `p` either. */
  lemma NotContainsSlice(s: string, p: string, a: nat, b: nat)
    requires !Contains(s, p) && a <= b <= |s|
    ensures !Contains(s[a..b], p)
  {
    forall j | 0 <= j <= b - a ensures !OccursAt(s[a..b], p, j) {
      if j + |p| <= b - a {
        var u, v := s[a..b][j..j + |p|], s[a + j..a + j + |p|];
        forall k | 0 <= k < |p| ensures u[k] == v[k] {
        }
        assert u == v;
        assert !OccursAt(s, p, a + j);
      }
    }
  }

  /** Trimming the text before the first `p` leaves no `p`. */
  lemma TrimBeforeFirst(s: string, p: string, u: nat)
    requires p != [] && IndexOf(s, p) == Some(u)
    ensures !Contains(Trim(s[..u]), p)
  {
    NoOccurrenceBetween(s, p, 0, u);
    assert s[0..u] == s[..u];
    TrimNotContains(s[..u], p);
  }

  lemma TrimNotContains(s: string, p: string)
    requires !Contains(s, p)
    ensures !Contains(Trim(s), p)
  {
    var a, b := TrimIsSlice(s);
    NotContainsSlice(s, p, a, b);
  }

  /** An occurrence of `a + b` is an occurrence of `a` followed by one of
      `b`. */
  lemma OccursSplit(s: string, a: string, b: string, x: nat)
    requires OccursAt(s, a + b, x)
    ensures OccursAt(s, a, x) && OccursAt(s, b, x + |a|)
  {
    assert s[x..x + |a|] == s[x..x + |a + b|][..|a|] == (a + b)[..|a|];
    assert s[x + |a|..x + |a| + |b|] == s[x..x + |a + b|][|a|..] == (a + b)[|a|..];
  }

  /** `p` does not occur in `s` anywhere inside a stretch `g` free of `p`
      that is directly followed by `p`'s first character, provided that
      character appears nowhere else in `p`. */
  lemma GapBlocks(s: string, p: string, i: nat, g: string)
    requires p != [] && forall d :: 0 < d < |p| ==> p[d] != p[0]
    requires OccursAt(s, g, i) && !Contains(g, p)
    requires i + |g| < |s| && s[i + |g|] == p[0]
    ensures forall j :: i <= j < i + |g| ==> !OccursAt(s, p, j)
  {
    forall j | i <= j < i + |g| ensures !OccursAt(s, p, j) {
      if j + |p| <= i + |g| {
        var u, v := s[j..j + |p|], g[j - i..j - i + |p|];
        forall k | 0 <= k < |p| ensures u[k] == v[k] {
          assert v[k] == g[j - i + k] == s[i..i + |g|][j - i + k];
        }
        assert u == v;
        assert !OccursAt(g, p, j - i);
      } else if j + |p| <= |s| {
        var d := i + |g| - j;
        assert s[j..j + |p|][d] == p[0] != p[d];
      }
    }
  }

  /** The first `p` from the start of a `p`-free stretch is the one
      directly after it, when `p`'s first character opens it only once. */
  lemma IndexAfterGap(s: string, p: string, i: nat, g: string)
    requires p != [] && forall d :: 0 < d < |p| ==> p[d] != p[0]
    requires OccursAt(s, g, i) && !Contains(g, p)
    requires OccursAt(s, p, i + |g|)
    ensures IndexOfFrom(s, p, i) == Some(i + |g|)
  {
    assert s[i + |g|] == s[i + |g|..i + |g| + |p|][0];
    GapBlocks(s, p, i, g);
    IndexOfFromIs(s, p, i, i + |g|);
  }

  /** Nothing in a suffix free of `p` is an occurrence of `p`. */
  lemma NotContainsSuffix(s: string, p: string, i: nat)
    requires i <= |s| && !Contains(s[i..], p)
    ensures forall j :: i <= j ==> !OccursAt(s, p, j)
  {
    forall j | i <= j ensures !OccursAt(s, p, j) {
      if j + |p| <= |s| {
        var u, v := s[j..j + |p|], s[i..][j - i..j - i + |p|];
        forall k | 0 <= k < |p| ensures u[k] == v[k] {
        }
        assert u == v;
        assert !OccursAt(s[i..], p, j - i);
      }
    }
  }

  /** `s.replace(p, rep)` with a literal pattern and a replacement free of
      `$` patterns: only the first occurrence is replaced. */
  function ReplaceFirst(s: string, p: string, rep: string): (r: string)
    ensures !Contains(s, p) ==> r == s
    ensures Contains(s, p) ==> var i := IndexOf(s, p).value; r == s[..i] + rep + s[i + |p|..]
  {
    match IndexOf(s, p)
    case None => s
    case Some(i) => s[..i] + rep + s[i + |p|..]
  }

  lemma ReplaceFirstAtStart(s: string, p: string, rep: string)
    requires StartsWith(s, p)
    ensures ReplaceFirst(s, p, rep) == rep + s[|p|..]
  {
    IndexOfIs(s, p, 0);
    assert s[..0] + rep + s[|p|..] == rep + s[|p|..];
  }

  /** `s.replace(/p/g, rep)` for a literal pattern `p`: occurrences are
      replaced left to right without overlap, and the text a replacement
      produces is not searched again. */
  function ReplaceAll(s: string, p: string, rep: string): (r: string)
    requires p != []
    decreases |s|
  {
    match IndexOf(s, p)
    case None => s
    case Some(i) => s[..i] + (rep + ReplaceAll(s[i + |p|..], p, rep))
  }

  /** A leading occurrence, with none in the rest, is the only one
      replaced. */
  lemma ReplaceAllAtStart(p: string, rep: string, rest: string)
    requires p != [] && IndexOf(rest, p).None?
    ensures ReplaceAll(p + rest, p, rep) == rep + rest
  {
    var s := p + rest;
    assert s[..|p|] == p && s[|p|..] == rest;
    IndexOfIs(s, p, 0);
  }

  /** A global replacement is a split on the pattern re-joined with the
      replacement. */
  lemma {:induction false} ReplaceAllIsSplitJoin(s: string, p: string, rep: string)
    requires p != []
    ensures ReplaceAll(s, p, rep) == Join(Split(s, p), rep)
    decreases |s|
  {
    match IndexOf(s, p)
    case None =>
    case Some(i) =>
      var rest := s[i + |p|..];
      ReplaceAllIsSplitJoin(rest, p, rep);
      ReplaceAllStep(s, p, rep, i);
      JoinCons(s[..i], Split(rest, p), rep);
      Associative(s[..i], rep, ReplaceAll(rest, p, rep));
  }

  lemma Associative<T>(a: seq<T>, b: seq<T>, c: seq<T>)
    ensures a + (b + c) == a + b + c
  {
  }

  lemma ReplaceAllStep(s: string, p: string, rep: string, i: nat)
    requires p != [] && IndexOf(s, p) == Some(i)
    ensures ReplaceAll(s, p, rep) == s[..i] + (rep + ReplaceAll(s[i + |p|..], p, rep))
    ensures Split(s, p) == [s[..i]] + Split(s[i + |p|..], p)
  {
  }

  /** `toLowerCase` on one character, for the ASCII and Latin-1 letters. */
  function LowerChar(c: char): (r: char)
    ensures ('A' <= c <= 'Z') ==> r as int == c as int + 32
    ensures !('A' <= c <= 'Z') && !('\U{00C0}' <= c <= '\U{00DE}') ==> r == c
  {
    if ('A' <= c <= 'Z') || ('\U{00C0}' <= c <= '\U{00DE}' && c != '\U{00D7}') then
      (c as int + 32) as char
    else c
  }

  function Lower(s: string): (r: string)
    ensures |r| == |s|
    ensures forall i :: 0 <= i < |s| ==> r[i] == LowerChar(s[i])
  {
    if s == [] then [] else [LowerChar(s[0])] + Lower(s[1..])
  }

  /** Lower-case ASCII letters are left as they are. */
  lemma LowerOfSmall(s: string)
    requires forall i :: 0 <= i < |s| ==> 'a' <= s[i] <= 'z'
    ensures Lower(s) == s
  {
  }

  /** `s.replace(/\s+/g, ' ')`: every run of spaces becomes one blank. */
  function CollapseSpaces(s: string): (r: string)
    ensures |r| <= |s|
    decreases |s|
  {
    if s == [] then []
    else if IsSpace(s[0]) then [' '] + CollapseSpaces(TrimStart(s))
    else [s[0]] + CollapseSpaces(s[1..])
  }

  /** Every element of `xs`, in order, with the ones that are `[]` dropped:
      the `filter(Boolean)` of a list of strings. */
  function NonEmpty(xs: seq<string>): (r: seq<string>)
    ensures |r| <= |xs|
    ensures forall k :: 0 <= k < |r| ==> r[k] != [] && r[k] in xs
  {
    if xs == [] then []
    else if xs[0] == [] then NonEmpty(xs[1..])
    else [xs[0]] + NonEmpty(xs[1..])
  }

  /** `xs.map(s => s.trim())`. */
  function TrimAll(xs: seq<string>): (r: seq<string>)
    ensures |r| == |xs|
    ensures forall k :: 0 <= k < |xs| ==> r[k] == Trim(xs[k])
  {
    Map(Trim, xs)
  }

  /** `xs.map(f)`. */
  function Map<A, B>(f: A -> B, xs: seq<A>): (r: seq<B>)
    ensures |r| == |xs|
    ensures forall k :: 0 <= k < |xs| ==> r[k] == f(xs[k])
  {
    if xs == [] then [] else Map(f, xs[..|xs| - 1]) + [f(xs[|xs| - 1])]
  }

  /** Mapping one more element extends the result by its image. */
  lemma MapPrefix<A, B>(f: A -> B, xs: seq<A>, k: nat)
    requires k < |xs|
    ensures Map(f, xs[..k + 1]) == Map(f, xs[..k]) + [f(xs[k])]
  {
    assert xs[..k + 1][..k] == xs[..k];
  }

  /** `xs.map(f)` for an `f` that may throw (`None`): the elements are
      mapped from the first on, and the first failure fails the map. */
  function MapAll<A, B>(f: A -> Option<B>, xs: seq<A>): Option<seq<B>>
    decreases |xs|
  {
    if xs == [] then Some([])
    else
      match MapAll(f, xs[..|xs| - 1])
      case None => None
      case Some(init) =>
        match f(xs[|xs| - 1])
        case None => None
        case Some(b) => Some(init + [b])
  }

  /** A map that may throw fails exactly when some element fails, and
      otherwise is the map of the total function `g` it agrees with. */
  lemma {:induction false} MapAllFails<A, B>(f: A -> Option<B>, g: A -> B, xs: seq<A>)
    requires forall x :: f(x).Some? ==> f(x).value == g(x)
    ensures MapAll(f, xs).None? <==> exists k :: 0 <= k < |xs| && f(xs[k]).None?
    ensures MapAll(f, xs).Some? ==> MapAll(f, xs).value == Map(g, xs)
    decreases |xs|
  {
    if xs != [] {
      var n := |xs| - 1;
      var init := xs[..n];
      MapAllFails(f, g, init);
      forall k | 0 <= k < n ensures xs[k] == init[k] { }
      if exists k :: 0 <= k < n && f(init[k]).None? {
        var k :| 0 <= k < n && f(init[k]).None?;
        assert f(xs[k]).None?;
      }
    }
  }

  /** Joining pieces free of a separator whose first character occurs
      nowhere else in it, and splitting again, gives back the pieces. */
  lemma {:induction false} SplitJoinFree(parts: seq<string>, sep: string)
    requires |parts| >= 1 && sep != []
    requires forall d :: 0 < d < |sep| ==> sep[d] != sep[0]
    requires forall k :: 0 <= k < |parts| ==> !Contains(parts[k], sep)
    ensures Split(Join(parts, sep), sep) == parts
  {
    var s := Join(parts, sep);
    if |parts| > 1 {
      var head := parts[0];
      var rest := Join(parts[1..], sep);
      assert s == head + sep + rest;
      assert s[..|head|] == head;
      assert OccursAt(s, head, 0);
      assert s[|head|..|head| + |sep|] == sep;
      GapBlocks(s, sep, 0, head);
      IndexOfIs(s, sep, |head|);
      assert s[|head| + |sep|..] == rest;
      SplitJoinFree(parts[1..], sep);
    }
  }

  /** `xs.map((x, i) => f(x, offset + i))`. */
  function MapIndexed<A, B>(f: (A, nat) -> B, xs: seq<A>, offset: nat): (r: seq<B>)
    ensures |r| == |xs|
    ensures forall k :: 0 <= k < |xs| ==> r[k] == f(xs[k], offset + k)
  {
    if xs == [] then []
    else MapIndexed(f, xs[..|xs| - 1], offset) + [f(xs[|xs| - 1], offset + |xs| - 1)]
  }

  /** Mapping one more element extends the result by its image. */
  lemma MapIndexedPrefix<A, B>(f: (A, nat) -> B, xs: seq<A>, offset: nat, k: nat)
    requires k < |xs|
    ensures MapIndexed(f, xs[..k + 1], offset) == MapIndexed(f, xs[..k], offset) + [f(xs[k], offset + k)]
  {
    assert xs[..k + 1][..k] == xs[..k];
  }

  // Decimal numbers

  predicate AllDigits(s: string) {
    forall i :: 0 <= i < |s| ==> IsDigit(s[i])
  }

  function DigitChar(d: nat): (c: char)
    requires d < 10
    ensures IsDigit(c)
  {
    ('0' as int + d) as char
  }

  /** `${n}` for a non-negative integer: its decimal digits, without
      leading zeros. */
  function DecimalString(n: nat): (r: string)
    ensures r != [] && AllDigits(r)
  {
    if n < 10 then [DigitChar(n)] else DecimalString(n / 10) + [DigitChar(n % 10)]
  }

  /** `parseInt` of a string of decimal digits. */
  function DecimalValue(s: string): nat
    requires AllDigits(s)
  {
    if s == [] then 0
    else DecimalValue(s[..|s| - 1]) * 10 + (s[|s| - 1] as int - '0' as int)
  }

  /** Reading back a printed number gives the number. */
  lemma {:induction false} DecimalRoundTrip(n: nat)
    ensures DecimalValue(DecimalString(n)) == n
  {
    var r := DecimalString(n);
    if n >= 10 {
      DecimalRoundTrip(n / 10);
      assert r[..|r| - 1] == DecimalString(n / 10);
    }
  }

  // Arithmetic

  lemma {:induction false} MulAtLeast(m: int, n: int)
    requires m >= 1 && n > 0
    ensures m * n >= n
    decreases m
  {
    if m > 1 {
      MulAtLeast(m - 1, n);
      assert m * n == (m - 1) * n + n;
    }
  }

  lemma MulZero(m: int, n: int)
    requires n > 0 && -n < m * n < n
    ensures m == 0
  {
    if m >= 1 {
      MulAtLeast(m, n);
    } else if m <= -1 {
      MulAtLeast(-m, n);
    }
  }

  /** Adding the modulus does not change the remainder. */
  lemma ModShift(k: nat, n: nat)
    requires n > 0
    ensures (k + n) % n == k % n
  {
    var q, r := k / n, k % n;
    var q2, r2 := (k + n) / n, (k + n) % n;
    assert k == q * n + r;
    assert k + n == q2 * n + r2;
    assert (q2 - q - 1) * n == r - r2;
    MulZero(q2 - q - 1, n);
  }

  lemma ModBelow(k: nat, n: nat)
    requires k < n
    ensures k % n == k
  {
  }
}
