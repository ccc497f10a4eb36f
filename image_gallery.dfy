/**
 * src/components/ImageGallery.tsx: the picture viewer of a listing page.
 * Its one piece of state is the index of the picture on show; the arrows
 * step it forward and back, wrapping at the ends, and a thumbnail sets it
 * directly. Nothing is shown for an empty list.
 */
module ImageGallery {
  import opened Text

  /** `i < n - 1 ? i + 1 : 0`. */
  function NextIndex(i: int, n: int): (r: int)
    requires 0 <= i < n
    ensures 0 <= r < n
    ensures r == 0 <==> i == n - 1
  {
    if i < n - 1 then i + 1 else 0
  }

  /** `i > 0 ? i - 1 : n - 1`. */
  function PrevIndex(i: int, n: int): (r: int)
    requires 0 <= i < n
    ensures 0 <= r < n
    ensures r == n - 1 <==> i == 0
  {
    if i > 0 then i - 1 else n - 1
  }

  /** Going forward and then back, or back and then forward, returns to
      the picture one started from. */
  lemma StepsInverse(i: int, n: int)
    requires 0 <= i < n
    ensures PrevIndex(NextIndex(i, n), n) == i
    ensures NextIndex(PrevIndex(i, n), n) == i
  {
  }

  /** The index after `k` presses of the forward arrow. */
  function Advance(i: int, n: int, k: nat): (r: int)
    requires 0 <= i < n
    ensures 0 <= r < n
    decreases k
  {
    if k == 0 then i else Advance(NextIndex(i, n), n, k - 1)
  }

  lemma {:induction false} AdvanceSplit(i: int, n: int, a: nat, b: nat)
    requires 0 <= i < n
    ensures Advance(i, n, a + b) == Advance(Advance(i, n, a), n, b)
    decreases a
  {
    if a > 0 {
      AdvanceSplit(NextIndex(i, n), n, a - 1, b);
    }
  }

  /** Before the last picture, pressing forward `k` times moves `k` on. */
  lemma {:induction false} AdvanceWithin(i: int, n: int, k: nat)
    requires 0 <= i && i + k < n
    ensures Advance(i, n, k) == i + k
    decreases k
  {
    if k > 0 {
      AdvanceWithin(i + 1, n, k - 1);
    }
  }

  /** Pressing forward once per picture comes back round to the start. */
  lemma FullTurn(i: int, n: int)
    requires 0 <= i < n
    ensures Advance(i, n, n) == i
  {
    AdvanceSplit(i, n, n - 1 - i, 1 + i);
    AdvanceWithin(i, n, n - 1 - i);
    AdvanceSplit(n - 1, n, 1, i);
    AdvanceWithin(0, n, i);
  }

  /** One thumbnail of the strip: its picture and whether it is the one on
      show. */
  datatype Thumbnail = Thumbnail(src: string, current: bool)

  /** What the gallery shows: the main picture, the counter `active + 1 /
      n`, the arrows and the thumbnail strip (both only for more than one
      picture). */
  datatype View = View(main: string, counter: (int, int), arrows: bool, thumbnails: seq<Thumbnail>)

  /** `images.map((img, i) => …)` with `i === active` marking the current
      one. */
  function Strip(images: seq<string>, active: int): (r: seq<Thumbnail>)
    ensures |r| == |images|
    ensures forall k :: 0 <= k < |images| ==> r[k].src == images[k] && (r[k].current <==> k == active)
  {
    seq(|images|, k requires 0 <= k < |images| => Thumbnail(images[k], k == active))
  }

  class Gallery {
    const images: seq<string>
    var active: int

    ghost predicate Valid()
      reads this
    {
      images != [] ==> 0 <= active < |images|
    }

    /** `useState(0)`. */
    constructor (images: seq<string>)
      ensures this.images == images && active == 0 && Valid()
    {
      this.images := images;
      active := 0;
    }

    /** The left arrow. */
    method Prev()
      requires Valid() && images != []
      modifies this
      ensures active == PrevIndex(old(active), |images|) && Valid()
    {
      active := if active > 0 then active - 1 else |images| - 1;
    }

    /** The right arrow. */
    method Next()
      requires Valid() && images != []
      modifies this
      ensures active == NextIndex(old(active), |images|) && Valid()
    {
      active := if active < |images| - 1 then active + 1 else 0;
    }

    /** A click on thumbnail `i`. */
    method Select(i: int)
      requires 0 <= i < |images|
      modifies this
      ensures active == i && Valid()
    {
      active := i;
    }

    /** The rendered gallery: none for an empty list; otherwise the
        picture on show, its position counted from one, and exactly one
        thumbnail marked as current when there is a strip. */
    function Render(): (v: Option<View>)
      reads this
      requires Valid()
      ensures v.None? <==> images == []
      ensures v.Some? ==> v.value.main == images[active]
      ensures v.Some? ==> v.value.counter == (active + 1, |images|)
      ensures v.Some? ==> 1 <= v.value.counter.0 <= v.value.counter.1
      ensures v.Some? ==> (v.value.arrows <==> |images| > 1)
      ensures v.Some? && |images| > 1 ==>
        |v.value.thumbnails| == |images|
        && forall k :: 0 <= k < |images| ==>
             v.value.thumbnails[k].src == images[k] && (v.value.thumbnails[k].current <==> k == active)
      ensures v.Some? && |images| <= 1 ==> v.value.thumbnails == []
    {
      if images == [] then None
      else
        var strip := if |images| > 1 then Strip(images, active) else [];
        Some(View(images[active], (active + 1, |images|), |images| > 1, strip))
    }
  }
}
