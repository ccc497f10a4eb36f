/**
 * src/components/PropertyCard.tsx: the catalog card of one property. The
 * card reads its price, sold flag and spec pairs off the spec tokens,
 * shows up to three pictures with a `+N` badge for the rest, and opens a
 * picture viewer (the modal) at a picture that is shown.
 */
module PropertyCard {
  import opened Text
  import ImageGallery

  const PriceWord: string := "Precio"
  const PricePrefix: string := "Precio: "
  const SoldToken: string := "VENDIDO"
  const NoPrice: string := "Consultar"

  // ---------------------------------------------------------------
  // Price, sold flag and spec pairs

  /** `specs.find(s => s.includes('Precio'))`, as an index. */
  function FindPrice(specs: seq<string>): (r: Option<nat>)
    ensures r.Some? ==> r.value < |specs| && Contains(specs[r.value], PriceWord)
    ensures forall j :: 0 <= j < |specs| && (r.None? || j < r.value) ==> !Contains(specs[j], PriceWord)
  {
    if specs == [] then None
    else if Contains(specs[0], PriceWord) then Some(0)
    else
      match FindPrice(specs[1..])
      case None => None
      case Some(k) => Some(k + 1)
  }

  /** `find(…)?.replace('Precio: ', '') || 'Consultar'`. */
  function Price(specs: seq<string>): (r: string)
    ensures r != ""
    ensures (forall j :: 0 <= j < |specs| ==> !Contains(specs[j], PriceWord)) ==> r == NoPrice
  {
    match FindPrice(specs)
    case None => NoPrice
    case Some(k) =>
      var v := ReplaceFirst(specs[k], PricePrefix, "");
      if v != "" then v else NoPrice
  }

  /** The first spec naming a price gives the price, less its first
      `Precio: `. */
  lemma PriceOfFirst(specs: seq<string>, k: nat)
    requires k < |specs| && Contains(specs[k], PriceWord)
    requires forall j :: 0 <= j < k ==> !Contains(specs[j], PriceWord)
    requires StartsWith(specs[k], PricePrefix) && |specs[k]| > |PricePrefix|
    ensures Price(specs) == specs[k][|PricePrefix|..]
  {
    var f := FindPrice(specs);
    assert f == Some(k);
    ReplaceFirstAtStart(specs[k], PricePrefix, "");
  }

  /** `specs.includes('VENDIDO')`. */
  predicate IsSold(specs: seq<string>) {
    SoldToken in specs
  }

  /** The tokens kept as specs: neither a price nor the sold mark. */
  predicate Kept(s: string) {
    !Contains(s, PriceWord) && s != SoldToken
  }

  /** `specs.filter(s => !s.includes('Precio') && s !== 'VENDIDO')`. */
  function RawSpecs(specs: seq<string>): (r: seq<string>)
    ensures |r| <= |specs|
    ensures forall k :: 0 <= k < |r| ==> Kept(r[k]) && r[k] in specs
    ensures forall x :: x in specs && Kept(x) ==> x in r
  {
    if specs == [] then []
    else if Kept(specs[0]) then [specs[0]] + RawSpecs(specs[1..])
    else RawSpecs(specs[1..])
  }

  /** The filter keeps order: filtering a concatenation concatenates the
      filtered parts. */
  lemma {:induction false} RawSpecsAppend(a: seq<string>, b: seq<string>)
    ensures RawSpecs(a + b) == RawSpecs(a) + RawSpecs(b)
    decreases |a|
  {
    if a == [] {
      assert a + b == b;
    } else {
      assert (a + b)[0] == a[0] && (a + b)[1..] == a[1..] + b;
      RawSpecsAppend(a[1..], b);
      if Kept(a[0]) {
        assert [a[0]] + (RawSpecs(a[1..]) + RawSpecs(b)) == ([a[0]] + RawSpecs(a[1..])) + RawSpecs(b);
      }
    }
  }

  /** One displayed spec: a value and the label after it (the source's
      `label`, a reserved word here). */
  datatype KeySpec = KeySpec(value: string, name: string)

  /** The pairs the `keySpecs` loop pushes: `raw[0]` with `raw[1]` when the
      latter is non-empty, then the same from `raw[2]` on; a last token
      without a partner is dropped. */
  function Pairs(raw: seq<string>): (r: seq<KeySpec>)
    ensures forall k :: 0 <= k < |r| ==> r[k].name != ""
    decreases |raw|
  {
    if |raw| < 2 then []
    else (if raw[1] != "" then [KeySpec(raw[0], raw[1])] else []) + Pairs(raw[2..])
  }

  /** At most one pair per two tokens. */
  lemma {:induction false} PairsBound(raw: seq<string>)
    ensures 2 * |Pairs(raw)| <= |raw|
    decreases |raw|
  {
    if |raw| >= 2 {
      PairsBound(raw[2..]);
    }
  }

  /** With no empty token, every two tokens make one pair: value `raw[2k]`,
      label `raw[2k + 1]`. */
  lemma {:induction false} PairsOfFull(raw: seq<string>)
    requires forall k :: 0 <= k < |raw| ==> raw[k] != ""
    ensures |Pairs(raw)| == |raw| / 2
    ensures forall k :: 0 <= k < |raw| / 2 ==> Pairs(raw)[k] == KeySpec(raw[2 * k], raw[2 * k + 1])
    decreases |raw|
  {
    if |raw| >= 2 {
      var rest := raw[2..];
      PairsOfFull(rest);
      assert Pairs(raw) == [KeySpec(raw[0], raw[1])] + Pairs(rest);
      forall k | 1 <= k < |raw| / 2
        ensures Pairs(raw)[k] == KeySpec(raw[2 * k], raw[2 * k + 1])
      {
        assert Pairs(raw)[k] == Pairs(rest)[k - 1];
        assert rest[2 * (k - 1)] == raw[2 * k];
      }
    }
  }

  /** The `keySpecs` loop: `for (let i = 0; i < raw.length; i += 2)`,
      pushing `{ value: raw[i], label: raw[i + 1] }` when `raw[i + 1]` is a
      non-empty string. */
  method KeySpecs(raw: seq<string>) returns (keySpecs: seq<KeySpec>)
    ensures keySpecs == Pairs(raw)
  {
    keySpecs := [];
    var i := 0;
    assert Drop(raw, 0) == raw;
    while i < |raw|
      invariant 0 <= i <= |raw| + 1
      invariant keySpecs + Pairs(Drop(raw, i)) == Pairs(raw)
      decreases |raw| - i
    {
      ghost var before := keySpecs;
      ghost var step := if i + 1 < |raw| && raw[i + 1] != "" then [KeySpec(raw[i], raw[i + 1])] else [];
      PairsStep(raw, i);
      if i + 1 < |raw| && raw[i + 1] != "" {
        keySpecs := keySpecs + [KeySpec(raw[i], raw[i + 1])];
      }
      assert keySpecs == before + step;
      Regroup(before, step, Pairs(Drop(raw, i + 2)));
      i := i + 2;
    }
    assert Drop(raw, i) == [];
  }

  lemma Regroup(a: seq<KeySpec>, b: seq<KeySpec>, c: seq<KeySpec>)
    ensures a + (b + c) == (a + b) + c
  {
  }

  /** The tokens from index `i` on, none once `i` is past the end. */
  function Drop(raw: seq<string>, i: nat): (r: seq<string>)
    ensures i <= |raw| ==> r == raw[i..]
    ensures i >= |raw| ==> r == []
  {
    if i <= |raw| then raw[i..] else []
  }

  /** One turn of the `keySpecs` loop. */
  lemma PairsStep(raw: seq<string>, i: nat)
    requires i < |raw|
    ensures Pairs(Drop(raw, i)) ==
      (if i + 1 < |raw| && raw[i + 1] != "" then [KeySpec(raw[i], raw[i + 1])] else [])
      + Pairs(Drop(raw, i + 2))
  {
    if i + 2 <= |raw| {
      assert raw[i..][2..] == raw[i + 2..];
    }
  }

  /** `keySpecs.slice(0, 3)`: the pairs on the card. */
  function Shown(pairs: seq<KeySpec>): (r: seq<KeySpec>)
    ensures |r| <= 3 && |r| <= |pairs| && r == pairs[..|r|]
    ensures |pairs| >= 3 ==> |r| == 3
    ensures |pairs| < 3 ==> r == pairs
  {
    if |pairs| <= 3 then pairs else pairs[..3]
  }

  // ---------------------------------------------------------------
  // Pictures

  /** `images[k]` used as a condition: present and not the empty string. */
  function Thumb(images: seq<string>, k: nat): (r: Option<string>)
    ensures r.Some? <==> k < |images| && images[k] != ""
    ensures r.Some? ==> r.value == images[k]
  {
    if k < |images| && images[k] != "" then Some(images[k]) else None
  }

  /** `images.length - 3`, negative for fewer than three pictures. */
  function Remaining(images: seq<string>): int {
    |images| - 3
  }

  /** The `+N` badge on the third picture: `thumb3 && remaining > 0`. */
  function Badge(images: seq<string>): (r: Option<int>)
    ensures r.Some? <==> |images| > 3 && images[2] != ""
    ensures r.Some? ==> r.value >= 1 && 3 + r.value == |images|
  {
    if Thumb(images, 2).Some? && Remaining(images) > 0 then Some(Remaining(images)) else None
  }

  /** What the card shows. */
  datatype CardView = CardView(price: string, sold: bool, specs: seq<KeySpec>,
                               main: Option<string>, second: Option<string>, third: Option<string>,
                               strip: bool, badge: Option<int>, link: string)

  /** A card property: its slug, title, spec tokens and pictures. */
  datatype Listing = Listing(id: string, slug: string, title: string, specs: seq<string>, images: seq<string>)

  function Render(p: Listing): (v: CardView)
    ensures v.sold <==> (exists k :: 0 <= k < |p.specs| && p.specs[k] == SoldToken)
    ensures |v.specs| <= 3
    ensures forall k :: 0 <= k < |v.specs| ==> v.specs[k].name != "" && Kept(v.specs[k].value) && Kept(v.specs[k].name)
    ensures v.strip <==> (v.second.Some? || v.third.Some?)
    ensures v.badge.Some? ==> v.third.Some?
    ensures v.link == "/" + p.slug
  {
    var raw := RawSpecs(p.specs);
    var pairs := Pairs(raw);
    PairsFrom(raw);
    var second := Thumb(p.images, 1);
    var third := Thumb(p.images, 2);
    CardView(Price(p.specs), IsSold(p.specs), Shown(pairs), Thumb(p.images, 0), second, third,
             second.Some? || third.Some?, Badge(p.images), "/" + p.slug)
  }

  /** Every pair is made of two tokens of its input. */
  lemma {:induction false} PairsFrom(raw: seq<string>)
    ensures forall k :: 0 <= k < |Pairs(raw)| ==> Pairs(raw)[k].value in raw && Pairs(raw)[k].name in raw
    decreases |raw|
  {
    if |raw| >= 2 {
      PairsFrom(raw[2..]);
      var head: seq<KeySpec> := if raw[1] != "" then [KeySpec(raw[0], raw[1])] else [];
      forall k | 0 <= k < |Pairs(raw)|
        ensures Pairs(raw)[k].value in raw && Pairs(raw)[k].name in raw
      {
        if k >= |head| {
          assert Pairs(raw)[k] == Pairs(raw[2..])[k - |head|];
        }
      }
    }
  }

  // ---------------------------------------------------------------
  // The picture viewer

  /** `(i + 1) % n`. */
  function ModalNext(i: int, n: int): (r: int)
    requires 0 <= i < n
    ensures 0 <= r < n
  {
    (i + 1) % n
  }

  /** `(i - 1 + n) % n`; the left operand is never negative, so
      JavaScript's `%` and Dafny's agree. */
  function ModalPrev(i: int, n: int): (r: int)
    requires 0 <= i < n
    ensures 0 <= r < n
  {
    (i - 1 + n) % n
  }

  /** The viewer steps exactly like the gallery of the listing page. */
  lemma ModalStepsAsGallery(i: int, n: int)
    requires 0 <= i < n
    ensures ModalNext(i, n) == ImageGallery.NextIndex(i, n)
    ensures ModalPrev(i, n) == ImageGallery.PrevIndex(i, n)
  {
    if i + 1 < n {
      ModBelow(i + 1, n);
    } else {
      ModShift(0, n);
    }
    if i > 0 {
      ModShift(i - 1, n);
      ModBelow(i - 1, n);
    } else {
      ModBelow(n - 1, n);
    }
  }

  /** Its arrows undo each other. */
  lemma ModalInverse(i: int, n: int)
    requires 0 <= i < n
    ensures ModalPrev(ModalNext(i, n), n) == i
    ensures ModalNext(ModalPrev(i, n), n) == i
  {
    ModalStepsAsGallery(i, n);
    ModalStepsAsGallery(ImageGallery.NextIndex(i, n), n);
    ModalStepsAsGallery(ImageGallery.PrevIndex(i, n), n);
    ImageGallery.StepsInverse(i, n);
  }

  /** `ImageModal`: the picture on show, from `initialIndex` on. */
  class ImageModal {
    const images: seq<string>
    var active: int

    ghost predicate Valid()
      reads this
    {
      0 <= active < |images|
    }

    constructor (images: seq<string>, initialIndex: int)
      requires 0 <= initialIndex < |images|
      ensures this.images == images && active == initialIndex && Valid()
    {
      this.images := images;
      active := initialIndex;
    }

    method Prev()
      requires Valid()
      modifies this
      ensures active == ModalPrev(old(active), |images|) && Valid()
    {
      active := (active - 1 + |images|) % |images|;
    }

    method Next()
      requires Valid()
      modifies this
      ensures active == ModalNext(old(active), |images|) && Valid()
    {
      active := (active + 1) % |images|;
    }

    method Select(i: int)
      requires 0 <= i < |images|
      modifies this
      ensures active == i && Valid()
    {
      active := i;
    }

    /** The picture on show and the counter `active + 1 / n`. */
    function Current(): (r: (string, int, int))
      reads this
      requires Valid()
      ensures r.0 == images[active] && r.1 == active + 1 && r.2 == |images|
      ensures 1 <= r.1 <= r.2
    {
      (images[active], active + 1, |images|)
    }
  }

  /** The card's own state: whether the viewer is open and at which
      picture it opens. */
  class Card {
    const listing: Listing
    var modalOpen: bool
    var modalIndex: int

    /** The viewer opens only at one of the three pictures on the card, and
        only at one that is shown. */
    ghost predicate Valid()
      reads this
    {
      0 <= modalIndex < 3 && (modalOpen ==> Thumb(listing.images, modalIndex).Some?)
    }

    constructor (listing: Listing)
      ensures this.listing == listing && !modalOpen && modalIndex == 0 && Valid()
    {
      this.listing := listing;
      modalOpen := false;
      modalIndex := 0;
    }

    /** A click on picture slot `k` of the card: the main picture, or the
        second or third under it. A slot whose picture is not shown has no
        handler (the main one's handler does nothing). */
    method ClickPicture(k: int)
      requires Valid() && 0 <= k < 3
      modifies this
      ensures Thumb(listing.images, k).Some? ==> modalOpen && modalIndex == k
      ensures Thumb(listing.images, k).None? ==> modalOpen == old(modalOpen) && modalIndex == old(modalIndex)
      ensures Valid()
    {
      if Thumb(listing.images, k).Some? {
        modalIndex := k;
        modalOpen := true;
      }
    }

    /** `onClose`. */
    method Close()
      requires Valid()
      modifies this
      ensures !modalOpen && modalIndex == old(modalIndex) && Valid()
    {
      modalOpen := false;
    }

    /** The viewer the open card renders, at the clicked picture. */
    method OpenViewer() returns (m: ImageModal)
      requires Valid() && modalOpen
      ensures fresh(m) && m.images == listing.images && m.active == modalIndex && m.Valid()
    {
      m := new ImageModal(listing.images, modalIndex);
    }
  }
}
