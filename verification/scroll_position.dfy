/**
 * The scroll targets of the next and previous handlers
 * (components/marketing/Carousel.tsx, lines 48 and 64), on whole pixels.
 * `itemWidth` is the `clientWidth` of the slide the search found; when it is
 * 0 the JavaScript quotient is infinite or NaN and the target is NaN.
 */
module ScrollPosition {

  /** A computed scroll offset: whole pixels, or NaN. */
  datatype Pos = Px(value: int) | NaN

  /** `Math.floor(a / w)` for a positive divisor. */
  function FloorDiv(a: int, w: int): (q: int)
    requires w > 0
    ensures q * w <= a < q * w + w
  {
    a / w
  }

  /** `Math.ceil(a / w)` for a positive divisor. */
  function CeilDiv(a: int, w: int): (q: int)
    requires w > 0
    ensures q * w - w < a <= q * w
  {
    -((-a) / w)
  }

  /** `p` is a whole number of slide widths: a slide boundary. */
  predicate Aligned(p: int, w: int)
    requires w > 0
  {
    p % w == 0
  }

  lemma MultipleIsAligned(q: int, w: int)
    requires w > 0
    ensures Aligned(q * w, w) && (q * w) / w == q
  {
  }

  lemma {:induction false} AlignedNearbyAreEqual(a: int, b: int, w: int)
    requires w > 0 && Aligned(a, w) && Aligned(b, w)
    requires a - w < b < a + w
    ensures a == b
  {
    var d := a / w - b / w;
    assert a == (a / w) * w && b == (b / w) * w;
    assert a - b == d * w;
  }

  /**
   * The next target `floor(scrollLeft / w) * w + 2w`: the slide boundary
   * more than one and at most two slide widths to the right.
   */
  function NextPos(scrollLeft: int, w: nat): (p: Pos)
    ensures p.NaN? <==> w == 0
    ensures w > 0 ==> Aligned(p.value, w) && scrollLeft + w < p.value <= scrollLeft + 2 * w
  {
    if w == 0 then NaN
    else
      var q := FloorDiv(scrollLeft, w);
      MultipleIsAligned(q + 2, w);
      Px(q * w + w * 2)
  }

  /**
   * The previous target `ceil(scrollLeft / w) * w - 2w`: the slide boundary
   * more than one and at most two slide widths to the left.
   */
  function PrevPos(scrollLeft: int, w: nat): (p: Pos)
    ensures p.NaN? <==> w == 0
    ensures w > 0 ==> Aligned(p.value, w) && scrollLeft - 2 * w <= p.value < scrollLeft - w
  {
    if w == 0 then NaN
    else
      var q := CeilDiv(scrollLeft, w);
      MultipleIsAligned(q - 2, w);
      Px(q * w - w * 2)
  }

  /** The next target is the only slide boundary in `(scrollLeft + w, scrollLeft + 2w]`. */
  lemma NextPosUnique(scrollLeft: int, w: nat, b: int)
    requires w > 0 && Aligned(b, w) && scrollLeft + w < b <= scrollLeft + 2 * w
    ensures NextPos(scrollLeft, w) == Px(b)
  {
    AlignedNearbyAreEqual(NextPos(scrollLeft, w).value, b, w);
  }

  /** The previous target is the only slide boundary in `[scrollLeft - 2w, scrollLeft - w)`. */
  lemma PrevPosUnique(scrollLeft: int, w: nat, b: int)
    requires w > 0 && Aligned(b, w) && scrollLeft - 2 * w <= b < scrollLeft - w
    ensures PrevPos(scrollLeft, w) == Px(b)
  {
    AlignedNearbyAreEqual(PrevPos(scrollLeft, w).value, b, w);
  }

  /**
   * Previous undoes next up to alignment: from any offset, a next target
   * followed by a previous target lands on the slide boundary at or before
   * the starting offset, and on the starting offset itself when that is a
   * boundary.
   */
  lemma PrevAfterNext(scrollLeft: int, w: nat)
    requires w > 0
    ensures PrevPos(NextPos(scrollLeft, w).value, w) == Px(FloorDiv(scrollLeft, w) * w)
    ensures Aligned(scrollLeft, w) ==> PrevPos(NextPos(scrollLeft, w).value, w) == Px(scrollLeft)
  {
    var b := FloorDiv(scrollLeft, w) * w;
    MultipleIsAligned(FloorDiv(scrollLeft, w), w);
    PrevPosUnique(NextPos(scrollLeft, w).value, w, b);
    if Aligned(scrollLeft, w) {
      AlignedNearbyAreEqual(scrollLeft, b, w);
    }
  }

  /**
   * Next undoes previous up to alignment: the result is the slide boundary
   * at or after the starting offset, the starting offset itself when that is
   * a boundary.
   */
  lemma NextAfterPrev(scrollLeft: int, w: nat)
    requires w > 0
    ensures NextPos(PrevPos(scrollLeft, w).value, w) == Px(CeilDiv(scrollLeft, w) * w)
    ensures Aligned(scrollLeft, w) ==> NextPos(PrevPos(scrollLeft, w).value, w) == Px(scrollLeft)
  {
    var b := CeilDiv(scrollLeft, w) * w;
    MultipleIsAligned(CeilDiv(scrollLeft, w), w);
    NextPosUnique(PrevPos(scrollLeft, w).value, w, b);
    if Aligned(scrollLeft, w) {
      AlignedNearbyAreEqual(scrollLeft, b, w);
    }
  }

  /**
   * The previous target reaches the start (`<= 0`) exactly when the list is
   * scrolled by at most two slide widths.
   */
  lemma PrevPosAtStartIff(scrollLeft: int, w: nat)
    requires w > 0
    ensures PrevPos(scrollLeft, w).value <= 0 <==> scrollLeft <= 2 * w
  {
  }

  /**
   * The next target is at the start (`<= 0`) exactly when the offset lies
   * more than one slide width left of the origin.
   */
  lemma NextPosAtStartIff(scrollLeft: int, w: nat)
    requires w > 0
    ensures NextPos(scrollLeft, w).value <= 0 <==> scrollLeft + w < 0
  {
  }
}
