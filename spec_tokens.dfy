/**
 * The spec-token parser shared, with small differences, by the three
 * catalog generators. A spec line such as
 * `4 | Dormitorios | 3 | Baños | 224 | m2 | Precio: 1.200.000` is cut into
 * tokens and read left to right with one token of lookahead: a `Precio:`
 * token sets the price, a status flag is kept as an extra, a token followed
 * by a unit label is bound to that unit (and the label skipped), and any
 * other token is kept as an extra. The variants differ only in their flag
 * set, which is a parameter here.
 */
module SpecTokens {
  import opened Text

  /** The parsed record; `None` is the source's `null`. */
  datatype Specs = Specs(
    dormitorios: Option<string>,
    banos: Option<string>,
    superficie: Option<string>,
    precio: Option<string>,
    extras: seq<string>)

  const Blank: Specs := Specs(None, None, None, None, [])

  const UnderConstruction: string := "En construcción"
  const Sold: string := "VENDIDO"

  /** The flag sets of the three variants. */
  const FlagsV2: set<string> := {UnderConstruction, Sold}
  const FlagsV1: set<string> := {UnderConstruction}
  const NoFlags: set<string> := {}

  const PriceTag: string := "Precio:"

  datatype Unit = Bedrooms | Bathrooms | Area

  /** The unit a label names, compared after `toLowerCase`. */
  function UnitOf(word: string): Option<Unit> {
    var l := Lower(word);
    if l == "dormitorios" then Some(Bedrooms)
    else if l == "baños" || l == "banos" then Some(Bathrooms)
    else if l == "m2" || l == "m²" then Some(Area)
    else None
  }

  predicate IsPrice(item: string) {
    StartsWith(item, PriceTag)
  }

  /** `item.replace('Precio:', '').trim()`. */
  function PriceValue(item: string): string {
    Trim(ReplaceFirst(item, PriceTag, ""))
  }

  /** `raw.split('|').map(s => s.trim()).filter(Boolean)`. */
  function Tokens(raw: string): seq<string> {
    NonEmpty(TrimAll(Split(raw, "|")))
  }

  /** The value a record holds for a unit. */
  function Field(r: Specs, u: Unit): Option<string> {
    match u
    case Bedrooms => r.dormitorios
    case Bathrooms => r.banos
    case Area => r.superficie
  }

  function Later(a: Option<string>, b: Option<string>): Option<string> {
    if b.Some? then b else a
  }

  /** The record `acc` after the assignments recorded in `later`: a field
      `later` sets replaces the earlier value, and extras accumulate. */
  function Override(acc: Specs, later: Specs): Specs {
    Specs(Later(acc.dormitorios, later.dormitorios), Later(acc.banos, later.banos),
      Later(acc.superficie, later.superficie), Later(acc.precio, later.precio),
      acc.extras + later.extras)
  }

  function Bound(u: Unit, v: string): Specs {
    match u
    case Bedrooms => Blank.(dormitorios := Some(v))
    case Bathrooms => Blank.(banos := Some(v))
    case Area => Blank.(superficie := Some(v))
  }

  function Priced(v: string): Specs {
    Blank.(precio := Some(v))
  }

  function Extra(item: string): Specs {
    Blank.(extras := [item])
  }

  /** How many tokens the first step of the pass consumes: two when a
      value is followed by a unit label, else one. */
  function Skip(flags: set<string>, parts: seq<string>): (n: nat)
    requires parts != []
    ensures 1 <= n <= |parts|
  {
    if !IsPrice(parts[0]) && parts[0] !in flags && |parts| > 1 && UnitOf(parts[1]).Some? then 2 else 1
  }

  /** The assignments the first step of the pass makes: a price, a value
      bound to the following label's unit, or an extra (a flag or any other
      token). */
  function Step(flags: set<string>, parts: seq<string>): Specs
    requires parts != []
  {
    if IsPrice(parts[0]) then Priced(PriceValue(parts[0]))
    else if Skip(flags, parts) == 2 then Bound(UnitOf(parts[1]).value, parts[0])
    else Extra(parts[0])
  }

  /** What the left-to-right pass makes of `parts`: the assignments of the
      first step, overridden by those of the steps after it. */
  function Parsed(flags: set<string>, parts: seq<string>): Specs
    decreases |parts|
  {
    if parts == [] then Blank
    else Override(Step(flags, parts), Parsed(flags, parts[Skip(flags, parts)..]))
  }

  lemma ParsedHead(flags: set<string>, parts: seq<string>)
    requires parts != []
    ensures Parsed(flags, parts) == Override(Step(flags, parts), Parsed(flags, parts[Skip(flags, parts)..]))
  {
  }

  lemma OverrideAssociative(a: Specs, b: Specs, c: Specs)
    ensures Override(Override(a, b), c) == Override(a, Override(b, c))
  {
    assert (a.extras + b.extras) + c.extras == a.extras + (b.extras + c.extras);
  }

  lemma OverrideBlank(a: Specs)
    ensures Override(a, Blank) == a
  {
    assert a.extras + [] == a.extras;
  }

  /** The loop of `parseSpecsText` / `parseSpecs`: one pass over the tokens,
      assigning fields of `result` in place and skipping a consumed label. */
  method ParseTokens(flags: set<string>, parts: seq<string>) returns (result: Specs)
    ensures result == Parsed(flags, parts)
  {
    result := Blank;
    var i := 0;
    while i < |parts|
      invariant i <= |parts|
      invariant Override(result, Parsed(flags, parts[i..])) == Parsed(flags, parts)
    {
      var item := parts[i];
      ghost var rest := parts[i..];
      ParsedHead(flags, rest);
      assert rest[0] == item;
      var step: Specs;
      if IsPrice(item) {
        step := Priced(PriceValue(item));
      } else if item in flags {
        step := Extra(item);
      } else {
        var next := if i + 1 < |parts| then parts[i + 1] else "";
        var unit := UnitOf(next);
        if unit.Some? {
          assert |rest| > 1 && rest[1] == next;
          step := Bound(unit.value, item);
          i := i + 1;
        } else {
          step := Extra(item);
        }
      }
      assert step == Step(flags, rest) && parts[i + 1..] == rest[Skip(flags, rest)..];
      OverrideAssociative(result, step, Parsed(flags, parts[i + 1..]));
      result := Override(result, step);
      i := i + 1;
    }
    assert parts[i..] == [];
    OverrideBlank(result);
  }

  /** A price token's value is its text after `Precio:`, trimmed. */
  lemma PriceValueIsRemainder(item: string)
    requires IsPrice(item)
    ensures PriceValue(item) == Trim(item[|PriceTag|..])
  {
    ReplaceFirstAtStart(item, PriceTag, "");
    assert "" + item[|PriceTag|..] == item[|PriceTag|..];
  }

  /** No unit label starts with `Precio:`, so a label is never read as a
      price. */
  lemma UnitLabelNotPrice(t: string)
    ensures UnitOf(t).Some? ==> !IsPrice(t)
  {
    if UnitOf(t).Some? && |t| > 0 {
      assert Lower(t)[0] == LowerChar(t[0]);
      assert Lower(t)[0] in {'d', 'b', 'm'};
    }
  }

  /** The price is set exactly when some token starts with `Precio:`, and
      then it is the value of the last such token. */
  lemma {:induction false} PriceIsLastPriceToken(flags: set<string>, parts: seq<string>)
    ensures Parsed(flags, parts).precio.None? <==> forall k :: 0 <= k < |parts| ==> !IsPrice(parts[k])
    ensures Parsed(flags, parts).precio.Some? ==>
      exists k :: 0 <= k < |parts| && IsPrice(parts[k]) && Parsed(flags, parts).precio.value == PriceValue(parts[k])
        && forall j :: k < j < |parts| ==> !IsPrice(parts[j])
    decreases |parts|
  {
    if parts != [] {
      var skip := Skip(flags, parts);
      var tail := parts[skip..];
      ParsedHead(flags, parts);
      StepPrice(flags, parts);
      PriceIsLastPriceToken(flags, tail);
      if Parsed(flags, tail).precio.Some? {
        var k :| 0 <= k < |tail| && IsPrice(tail[k]) && Parsed(flags, tail).precio.value == PriceValue(tail[k])
          && forall j :: k < j < |tail| ==> !IsPrice(tail[j]);
        ShiftNoPriceAfter(parts, skip, tail, k);
      } else {
        ShiftNoPriceAfter(parts, skip, tail, -1);
      }
    }
  }

  /** What `tail == parts[n..]` says about the tokens after a position. */
  lemma ShiftNoPriceAfter(parts: seq<string>, n: nat, tail: seq<string>, k: int)
    requires n <= |parts| && tail == parts[n..] && -1 <= k < |tail|
    requires forall j :: k < j < |tail| ==> !IsPrice(tail[j])
    ensures k >= 0 ==> parts[k + n] == tail[k]
    ensures forall j :: k + n < j < |parts| ==> !IsPrice(parts[j])
  {
    forall j | k + n < j < |parts| ensures !IsPrice(parts[j]) {
      assert parts[j] == tail[j - n];
    }
  }

  /** The first step sets the price exactly when the first token is a
      price token, and consumes a second token only when that is a label,
      never a price. */
  lemma StepPrice(flags: set<string>, parts: seq<string>)
    requires parts != []
    ensures Step(flags, parts).precio == (if IsPrice(parts[0]) then Some(PriceValue(parts[0])) else None)
    ensures Skip(flags, parts) == 2 ==> !IsPrice(parts[1])
  {
    if Skip(flags, parts) == 2 {
      UnitLabelNotPrice(parts[1]);
    }
  }

  /** A status flag that is neither a price nor a unit label is always kept
      as an extra on its own: every occurrence of it ends up in `extras`. */
  lemma {:induction false} FlagsKept(flags: set<string>, parts: seq<string>, f: string)
    requires f in flags && !IsPrice(f) && UnitOf(f).None?
    ensures multiset(Parsed(flags, parts).extras)[f] == multiset(parts)[f]
    decreases |parts|
  {
    if parts != [] {
      assert parts == [parts[0]] + parts[1..];
      if !IsPrice(parts[0]) && parts[0] !in flags && |parts| > 1 && UnitOf(parts[1]).Some? {
        assert parts[1..] == [parts[1]] + parts[2..];
        FlagsKept(flags, parts[2..], f);
      } else {
        FlagsKept(flags, parts[1..], f);
      }
    }
  }

  /** `xs` is `ys` with some elements left out, order kept. */
  predicate Subsequence(xs: seq<string>, ys: seq<string>)
    decreases |ys|
  {
    xs == [] || (ys != [] && ((xs[0] == ys[0] && Subsequence(xs[1..], ys[1..])) || Subsequence(xs, ys[1..])))
  }

  /** The extras are tokens of the input in input order, and none of them
      is a price. */
  lemma {:induction false} ExtrasInOrder(flags: set<string>, parts: seq<string>)
    ensures Subsequence(Parsed(flags, parts).extras, parts)
    ensures forall k :: 0 <= k < |Parsed(flags, parts).extras| ==> !IsPrice(Parsed(flags, parts).extras[k])
    decreases |parts|
  {
    if parts != [] {
      var e := Parsed(flags, parts).extras;
      if IsPrice(parts[0]) {
        ExtrasInOrder(flags, parts[1..]);
        assert e == Parsed(flags, parts[1..]).extras;
      } else if parts[0] !in flags && |parts| > 1 && UnitOf(parts[1]).Some? {
        ExtrasInOrder(flags, parts[2..]);
        assert e == Parsed(flags, parts[2..]).extras;
        assert parts[1..][1..] == parts[2..];
        assert Subsequence(e, parts[1..]);
      } else {
        ExtrasInOrder(flags, parts[1..]);
        assert e == [parts[0]] + Parsed(flags, parts[1..]).extras;
        assert e[1..] == Parsed(flags, parts[1..]).extras;
      }
    }
  }

  /** A bound field holds a token that is neither a price nor a flag and is
      followed by that unit's label; in particular the last token is never
      bound. */
  lemma {:induction false} FieldsArePairs(flags: set<string>, parts: seq<string>, u: Unit)
    ensures Field(Parsed(flags, parts), u).Some? ==>
      exists k :: 0 <= k && k + 1 < |parts| && parts[k] == Field(Parsed(flags, parts), u).value
        && !IsPrice(parts[k]) && parts[k] !in flags && UnitOf(parts[k + 1]) == Some(u)
    decreases |parts|
  {
    if parts != [] {
      var skip := if !IsPrice(parts[0]) && parts[0] !in flags && |parts| > 1 && UnitOf(parts[1]).Some? then 2 else 1;
      var tail := parts[skip..];
      FieldsArePairs(flags, tail, u);
      if Field(Parsed(flags, tail), u).Some? {
        var k :| 0 <= k && k + 1 < |tail| && tail[k] == Field(Parsed(flags, tail), u).value
          && !IsPrice(tail[k]) && tail[k] !in flags && UnitOf(tail[k + 1]) == Some(u);
        assert parts[k + skip] == tail[k] && parts[k + skip + 1] == tail[k + 1];
      }
    }
  }

  /** A last token that is neither a price nor a unit label is the last
      extra: it has no following label to pair with. */
  lemma {:induction false} LastTokenIsExtra(flags: set<string>, parts: seq<string>)
    requires parts != []
    requires !IsPrice(Last(parts)) && UnitOf(Last(parts)).None?
    ensures Parsed(flags, parts).extras != [] && Last(Parsed(flags, parts).extras) == Last(parts)
    decreases |parts|
  {
    if |parts| == 1 {
      assert parts == [parts[0]];
      ParsedLast(flags, parts[0]);
    } else {
      var tail := parts[Skip(flags, parts)..];
      SkipLeavesLast(flags, parts, tail);
      LastTokenIsExtra(flags, tail);
      ParsedHead(flags, parts);
      OverrideKeepsLastExtra(Step(flags, parts), Parsed(flags, tail));
    }
  }

  /** A token is paired only with a label, so a last token that is not a
      label is never consumed by the step before it. */
  lemma SkipLeavesLast(flags: set<string>, parts: seq<string>, tail: seq<string>)
    requires |parts| > 1 && UnitOf(Last(parts)).None?
    requires tail == parts[Skip(flags, parts)..]
    ensures tail != [] && Last(tail) == Last(parts)
  {
  }

  lemma OverrideKeepsLastExtra(a: Specs, b: Specs)
    requires b.extras != []
    ensures Override(a, b).extras != [] && Last(Override(a, b).extras) == Last(b.extras)
  {
  }

  lemma ParsedLast(flags: set<string>, t: string)
    requires !IsPrice(t)
    ensures Parsed(flags, [t]) == Extra(t)
  {
    OverrideBlank(Extra(t));
  }

  lemma ParsedFlag(flags: set<string>, f: string, rest: seq<string>)
    requires !IsPrice(f) && f in flags
    ensures Parsed(flags, [f] + rest) == Override(Extra(f), Parsed(flags, rest))
  {
    assert ([f] + rest)[1..] == rest;
  }

  lemma ParsedPair(flags: set<string>, v: string, w: string, rest: seq<string>)
    requires !IsPrice(v) && v !in flags && UnitOf(w).Some?
    ensures Parsed(flags, [v, w] + rest) == Override(Bound(UnitOf(w).value, v), Parsed(flags, rest))
  {
    assert ([v, w] + rest)[2..] == rest;
  }

  /** Two flag sets that agree on every token give the same record. */
  lemma {:induction false} FlagsOnlyMatterWhenPresent(f1: set<string>, f2: set<string>, parts: seq<string>)
    requires forall k :: 0 <= k < |parts| ==> (parts[k] in f1 <==> parts[k] in f2)
    ensures Parsed(f1, parts) == Parsed(f2, parts)
    decreases |parts|
  {
    if parts != [] {
      FlagsOnlyMatterWhenPresent(f1, f2, parts[1..]);
      if |parts| > 1 {
        FlagsOnlyMatterWhenPresent(f1, f2, parts[2..]);
      }
    }
  }

  lemma DormitoriosIsLabel()
    ensures UnitOf("Dormitorios") == Some(Bedrooms)
  {
    var tail := "ormitorios";
    assert "Dormitorios" == ['D'] + tail && "dormitorios" == ['d'] + tail;
    LowerOfSmall(tail);
    assert Lower(['D'] + tail) == ['d'] + tail;
  }

  /** Neither status flag starts with `Precio:`. */
  lemma FlagsNotPrices()
    ensures !IsPrice(Sold) && !IsPrice(UnderConstruction)
  {
    assert Sold[0] != PriceTag[0] && UnderConstruction[0] != PriceTag[0];
  }

  /** Hence the two Yucatán variants differ only on inputs with a `VENDIDO`
      token. */
  lemma VariantsAgreeWithoutSold(parts: seq<string>)
    requires Sold !in parts
    ensures Parsed(FlagsV2, parts) == Parsed(FlagsV1, parts)
  {
    FlagsOnlyMatterWhenPresent(FlagsV2, FlagsV1, parts);
  }

  /** And they do differ there: with only `En construcción` a flag,
      `VENDIDO` followed by a unit label is bound to that label's field. */
  lemma SoldBeforeLabel(w: string)
    requires UnitOf(w).Some?
    ensures Parsed(FlagsV2, [Sold, w]) == Specs(None, None, None, None, [Sold, w])
    ensures Parsed(FlagsV1, [Sold, w]) == Bound(UnitOf(w).value, Sold)
  {
    FlagsNotPrices();
    UnitLabelNotPrice(w);
    FlagBeforeLabel(FlagsV2, Sold, w);
    ValueBeforeLabel(FlagsV1, Sold, w);
  }

  /** A flag is kept even when a label follows it, and the label, with
      nothing before it to bind, is kept too. */
  lemma FlagBeforeLabel(flags: set<string>, f: string, w: string)
    requires !IsPrice(f) && f in flags && !IsPrice(w)
    ensures Parsed(flags, [f, w]) == Specs(None, None, None, None, [f, w])
  {
    ParsedFlag(flags, f, [w]);
    ParsedLast(flags, w);
  }

  /** A non-flag followed by a label is bound to that label's unit. */
  lemma ValueBeforeLabel(flags: set<string>, v: string, w: string)
    requires !IsPrice(v) && v !in flags && UnitOf(w).Some?
    ensures Parsed(flags, [v, w]) == Bound(UnitOf(w).value, v)
  {
    ParsedPair(flags, v, w, []);
    assert [v, w] + [] == [v, w];
    OverrideBlank(Bound(UnitOf(w).value, v));
  }

  /** A price token wins over the flag check, even when it is also a flag. */
  lemma PriceBeforeFlag(flags: set<string>, item: string)
    requires IsPrice(item) && item in flags
    ensures Parsed(flags, [item]) == Specs(None, None, None, Some(PriceValue(item)), [])
  {
    assert [item][1..] == [];
    OverrideBlank(Priced(PriceValue(item)));
  }

  /** A later pair overwrites an earlier one for the same unit. */
  lemma LaterPairWins(flags: set<string>, a: string, b: string, w: string)
    requires !IsPrice(a) && a !in flags && !IsPrice(b) && b !in flags && UnitOf(w).Some?
    ensures Field(Parsed(flags, [a, w, b, w]), UnitOf(w).value) == Some(b)
  {
    ParsedPair(flags, b, w, []);
    assert [b, w] + [] == [b, w];
    ParsedPair(flags, a, w, [b, w]);
    assert [a, w] + [b, w] == [a, w, b, w];
  }

  /** The tokens of a spec line are trimmed, non-empty and free of `|`. */
  lemma TokensShape(raw: string)
    ensures forall k :: 0 <= k < |Tokens(raw)| ==>
      Tokens(raw)[k] != [] && NoSpaceAtEnds(Tokens(raw)[k]) && '|' !in Tokens(raw)[k]
  {
    var pieces := Split(raw, "|");
    SplitPiecesFree(raw, "|");
    forall k | 0 <= k < |Tokens(raw)|
      ensures NoSpaceAtEnds(Tokens(raw)[k]) && '|' !in Tokens(raw)[k]
    {
      var t := Tokens(raw)[k];
      assert t in TrimAll(pieces);
      var j :| 0 <= j < |pieces| && t == TrimAll(pieces)[j];
      NoCharInTrim(pieces[j], '|');
    }
  }

  lemma NoCharInTrim(s: string, c: char)
    requires !Contains(s, [c])
    ensures c !in Trim(s)
  {
    var a, b := TrimIsSlice(s);
    NotContainsChar(s, c);
    assert forall i :: 0 <= i < b - a ==> Trim(s)[i] == s[a + i];
  }

  /** Joining trimmed, non-empty, `|`-free tokens with `|` and tokenizing
      again gives them back. */
  lemma TokensRoundTrip(xs: seq<string>)
    requires xs != []
    requires forall k :: 0 <= k < |xs| ==> xs[k] != [] && NoSpaceAtEnds(xs[k]) && '|' !in xs[k]
    ensures Tokens(Join(xs, "|")) == xs
  {
    calc {
      Tokens(Join(xs, "|"));
    ==
      NonEmpty(TrimAll(Split(Join(xs, "|"), "|")));
    == { SplitJoinBar(xs); }
      NonEmpty(TrimAll(xs));
    == { TrimAllTrimmed(xs); }
      NonEmpty(xs);
    == { NonEmptyOfNonEmpty(xs); }
      xs;
    }
  }

  lemma SplitJoinBar(xs: seq<string>)
    requires xs != [] && forall k :: 0 <= k < |xs| ==> '|' !in xs[k]
    ensures Split(Join(xs, "|"), "|") == xs
  {
    SplitJoin(xs, "|", 0);
  }

  lemma {:induction false} TrimAllTrimmed(xs: seq<string>)
    requires forall k :: 0 <= k < |xs| ==> NoSpaceAtEnds(xs[k])
    ensures TrimAll(xs) == xs
  {
    forall k | 0 <= k < |xs| ensures TrimAll(xs)[k] == xs[k] {
      TrimOfTrimmed(xs[k]);
    }
  }

  lemma {:induction false} NonEmptyOfNonEmpty(xs: seq<string>)
    requires forall k :: 0 <= k < |xs| ==> xs[k] != []
    ensures NonEmpty(xs) == xs
  {
    if xs != [] {
      NonEmptyOfNonEmpty(xs[1..]);
    }
  }

  // Formatting

  /** The wording each rendering attaches to the four fields. */
  datatype Labels = Labels(dorm: string, banos: string, area: string, pricePrefix: string, priceSuffix: string)

  const DisplayLabels: Labels := Labels(" Dormitorios", " Baños", " m²", "Precio: ", " €")
  const SummaryLabels: Labels := Labels(" dorm", " baños", " m²", "", " €")

  /** The labelled fields, in the order dormitorios, baños, superficie,
      precio, each only when truthy. */
  function FieldTexts(r: Specs, l: Labels): (t: seq<string>)
    ensures |t| <= 4
    ensures Truthy(r.dormitorios) ==> |t| > 0 && t[0] == r.dormitorios.value + l.dorm
    ensures |t| == 0 <==> !Truthy(r.dormitorios) && !Truthy(r.banos) && !Truthy(r.superficie) && !Truthy(r.precio)
  {
    (if Truthy(r.dormitorios) then [r.dormitorios.value + l.dorm] else [])
    + (if Truthy(r.banos) then [r.banos.value + l.banos] else [])
    + (if Truthy(r.superficie) then [r.superficie.value + l.area] else [])
    + (if Truthy(r.precio) then [l.pricePrefix + r.precio.value + l.priceSuffix] else [])
  }

  /** No value and no extra of `r` contains `c`. */
  predicate FreeOf(r: Specs, c: char) {
    && (r.dormitorios.Some? ==> c !in r.dormitorios.value)
    && (r.banos.Some? ==> c !in r.banos.value)
    && (r.superficie.Some? ==> c !in r.superficie.value)
    && (r.precio.Some? ==> c !in r.precio.value)
    && (forall t :: t in r.extras ==> c !in t)
  }

  /** Every text the parser stores comes from a token. */
  lemma {:induction false} ParsedFreeOf(flags: set<string>, parts: seq<string>, c: char)
    requires forall k :: 0 <= k < |parts| ==> c !in parts[k]
    ensures FreeOf(Parsed(flags, parts), c)
    decreases |parts|
  {
    if parts != [] {
      var tail := parts[Skip(flags, parts)..];
      ParsedHead(flags, parts);
      ParsedFreeOf(flags, tail, c);
      StepFreeOf(flags, parts, c);
      OverrideFreeOf(Step(flags, parts), Parsed(flags, tail), c);
    }
  }

  /** The first step stores only text taken from the first token. */
  lemma StepFreeOf(flags: set<string>, parts: seq<string>, c: char)
    requires parts != [] && c !in parts[0]
    ensures FreeOf(Step(flags, parts), c)
  {
    if IsPrice(parts[0]) {
      NoCharInPriceValue(parts[0], c);
    }
  }

  lemma OverrideFreeOf(a: Specs, b: Specs, c: char)
    requires FreeOf(a, c) && FreeOf(b, c)
    ensures FreeOf(Override(a, b), c)
  {
  }

  lemma NoCharInPriceValue(item: string, c: char)
    requires IsPrice(item) && c !in item
    ensures c !in PriceValue(item)
  {
    PriceValueIsRemainder(item);
    var rest := item[|PriceTag|..];
    assert !Contains(rest, [c]) by {
      forall i | 0 <= i <= |rest| ensures !OccursAt(rest, [c], i) {
        SingleCharOccurrence(rest, c, i);
      }
    }
    NoCharInTrim(rest, c);
  }

  /** None of the wording of `l` contains `c`. */
  predicate LabelsFreeOf(l: Labels, c: char) {
    c !in l.dorm && c !in l.banos && c !in l.area && c !in l.pricePrefix && c !in l.priceSuffix
  }

  lemma DisplayLabelsFreeOfBar()
    ensures LabelsFreeOf(DisplayLabels, '|')
  {
    assert DisplayLabels.dorm == " Dormitorios" && DisplayLabels.banos == " Baños";
  }

  lemma SummaryLabelsFreeOfComma()
    ensures LabelsFreeOf(SummaryLabels, ',')
  {
    assert SummaryLabels.dorm == " dorm" && SummaryLabels.banos == " baños";
  }

  lemma FieldTextsFreeOf(r: Specs, l: Labels, c: char)
    requires FreeOf(r, c) && LabelsFreeOf(l, c)
    ensures forall k :: 0 <= k < |FieldTexts(r, l)| ==> c !in FieldTexts(r, l)[k]
  {
  }
}
