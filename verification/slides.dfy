/**
 * The search for the slide to bring into view (getSlideInDirection in
 * components/marketing/Carousel.tsx). Each mounted slide carries the
 * `data-slide-intersected` flag its IntersectionObserver maintains and its
 * `clientWidth`; the search is `Array.prototype.find` over the slides in
 * document order.
 */
module Slides {
  import opened Wrappers

  /** The direction of travel: a next click passes 1, a previous click -1. */
  datatype Direction = Next | Previous {
    function Step(): int {
      if Next? then 1 else -1
    }
  }

  /** One mounted slide: fully visible in the list viewport or not, and its width in pixels. */
  datatype Slide = Slide(intersected: bool, clientWidth: nat)

  /**
   * `slides.item(j)?.dataset.slideIntersected === 'true'`: `item` answers
   * null for an index outside the list, so such a neighbour reads as not
   * visible.
   */
  predicate IntersectedAt(slides: seq<Slide>, j: int) {
    0 <= j < |slides| && slides[j].intersected
  }

  /**
   * The `find` callback: slide `i` is not fully visible while its neighbour
   * one step against the direction of travel is.
   */
  predicate Entering(slides: seq<Slide>, dir: Direction, i: int) {
    0 <= i < |slides| && !slides[i].intersected && IntersectedAt(slides, i - dir.Step())
  }

  /** `find` from index `k` on: the first entering slide at or after `k`. */
  function FindFrom(slides: seq<Slide>, dir: Direction, k: nat): (r: Option<nat>)
    requires k <= |slides|
    ensures r.Some? ==> k <= r.value && Entering(slides, dir, r.value)
    ensures r.Some? ==> forall j :: k <= j < r.value ==> !Entering(slides, dir, j)
    ensures r.None? ==> forall j :: k <= j < |slides| ==> !Entering(slides, dir, j)
    decreases |slides| - k
  {
    if k == |slides| then None
    else if Entering(slides, dir, k) then Some(k)
    else FindFrom(slides, dir, k + 1)
  }

  /**
   * getSlideInDirection: `None` for `mounted` when the carousel element is
   * not mounted (the optional chain yields undefined), otherwise the index of
   * the least entering slide, or nothing when no slide is entering.
   */
  function SlideInDirection(mounted: Option<seq<Slide>>, dir: Direction): (r: Option<nat>)
    ensures r.Some? <==> mounted.Some? && exists i :: Entering(mounted.value, dir, i)
    ensures r.Some? ==> Entering(mounted.value, dir, r.value)
    ensures r.Some? ==> forall j :: 0 <= j < r.value ==> !Entering(mounted.value, dir, j)
  {
    match mounted
    case None => None
    case Some(slides) => FindFrom(slides, dir, 0)
  }

  /** The fully visible slides, if any, are the last ones of the list. */
  ghost predicate VisibleAtEnd(slides: seq<Slide>) {
    forall i, j :: 0 <= i < j < |slides| && slides[i].intersected ==> slides[j].intersected
  }

  /** The fully visible slides, if any, are the first ones of the list. */
  ghost predicate VisibleAtStart(slides: seq<Slide>) {
    forall i, j :: 0 <= i < j < |slides| && slides[j].intersected ==> slides[i].intersected
  }

  lemma {:induction false} VisibilityCarriesForward(slides: seq<Slide>, i: nat, j: nat)
    requires i <= j < |slides| && slides[i].intersected
    requires forall k :: 0 <= k < |slides| ==> !Entering(slides, Next, k)
    ensures slides[j].intersected
    decreases j - i
  {
    if i < j {
      VisibilityCarriesForward(slides, i, j - 1);
      assert !Entering(slides, Next, j);
    }
  }

  lemma {:induction false} VisibilityCarriesBackward(slides: seq<Slide>, i: nat, j: nat)
    requires i <= j < |slides| && slides[j].intersected
    requires forall k :: 0 <= k < |slides| ==> !Entering(slides, Previous, k)
    ensures slides[i].intersected
    decreases j - i
  {
    if i < j {
      VisibilityCarriesBackward(slides, i + 1, j);
      assert !Entering(slides, Previous, i);
    }
  }

  /**
   * A next click finds no slide exactly when the visible slides already sit
   * at the end of the list: the carousel is at its right edge (or nothing is
   * visible at all).
   */
  lemma NextFindsNothingIff(slides: seq<Slide>)
    ensures SlideInDirection(Some(slides), Next).None? <==> VisibleAtEnd(slides)
  {
    if SlideInDirection(Some(slides), Next).None? {
      forall i, j | 0 <= i < j < |slides| && slides[i].intersected
        ensures slides[j].intersected
      {
        VisibilityCarriesForward(slides, i, j);
      }
    } else {
      var k := SlideInDirection(Some(slides), Next).value;
      assert slides[k - 1].intersected && !slides[k].intersected;
    }
  }

  /**
   * A previous click finds no slide exactly when the visible slides sit at
   * the start of the list: the carousel is at its left edge (or nothing is
   * visible at all).
   */
  lemma PreviousFindsNothingIff(slides: seq<Slide>)
    ensures SlideInDirection(Some(slides), Previous).None? <==> VisibleAtStart(slides)
  {
    if SlideInDirection(Some(slides), Previous).None? {
      forall i, j | 0 <= i < j < |slides| && slides[j].intersected
        ensures slides[i].intersected
      {
        VisibilityCarriesBackward(slides, i, j);
      }
    } else {
      var k := SlideInDirection(Some(slides), Previous).value;
      assert slides[k + 1].intersected && !slides[k].intersected;
    }
  }
}
