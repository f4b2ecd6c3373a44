/**
 * The navigation state of the `Carousel` component
 * (components/marketing/Carousel.tsx): the two button flags and the delay of
 * the next scheduled re-check, the two click handlers that update them
 * optimistically, and the re-check that recomputes them from the measured
 * scroll position of the slide list.
 */
module Navigation {
  import opened Wrappers
  import opened Slides
  import opened ScrollPosition

  /** Re-check delay, in milliseconds, while the list is at rest. */
  const SettledDelay: nat := 100
  /** Re-check delay, in milliseconds, after a programmatic scroll, to let its animation finish. */
  const ScrollingDelay: nat := 500

  /** What the handlers read from the slide list element, in whole pixels. */
  datatype ListGeometry = ListGeometry(scrollLeft: int, scrollWidth: int, clientWidth: int)

  /** The values of `nextDisabled`, `prevDisabled` and `navigationUpdateDelay.current`. */
  datatype NavState = NavState(nextDisabled: bool, prevDisabled: bool, delay: nat)

  /** The state at mount: the first slide is assumed visible. */
  const Initial := NavState(false, true, SettledDelay)

  /** The delay is always one of the two the component uses. */
  predicate KnownDelay(st: NavState) {
    st.delay == SettledDelay || st.delay == ScrollingDelay
  }

  /** `pos <= 0`; a NaN target compares false. */
  predicate AtStart(pos: Pos) {
    pos.Px? && pos.value <= 0
  }

  /** `scrollWidth - pos - clientWidth <= 0`; a NaN target compares false. */
  predicate AtEnd(pos: Pos, list: ListGeometry) {
    pos.Px? && list.scrollWidth - pos.value - list.clientWidth <= 0
  }

  function Target(dir: Direction, scrollLeft: int, w: nat): Pos {
    match dir
    case Next => NextPos(scrollLeft, w)
    case Previous => PrevPos(scrollLeft, w)
  }

  /**
   * The `scrollTo` a click issues: none when the search finds no slide,
   * otherwise the target computed with the found slide's width. A request
   * in pixels moves the list to the right exactly when the click is a next
   * click.
   */
  function ScrollRequest(dir: Direction, slides: Option<seq<Slide>>, list: ListGeometry): (r: Option<Pos>)
    ensures r.None? <==> SlideInDirection(slides, dir).None?
    ensures r.Some? ==> (r.value.NaN? <==> slides.value[SlideInDirection(slides, dir).value].clientWidth == 0)
    ensures r.Some? && r.value.Px? ==> (r.value.value > list.scrollLeft <==> dir == Next)
    ensures r.Some? ==>
      var w := slides.value[SlideInDirection(slides, dir).value].clientWidth;
      var s := list.scrollLeft;
      w > 0 ==> (r.value.Px? && Aligned(r.value.value, w) &&
                 (dir == Next ==> s + w < r.value.value <= s + 2 * w) &&
                 (dir == Previous ==> s - 2 * w <= r.value.value < s - w))
  {
    match SlideInDirection(slides, dir)
    case None => None
    case Some(i) => Some(Target(dir, list.scrollLeft, slides.value[i].clientWidth))
  }

  /** handleNextClick / handlePrevClick on the state. */
  function AfterClick(st: NavState, dir: Direction, slides: Option<seq<Slide>>, list: ListGeometry): NavState {
    match ScrollRequest(dir, slides, list)
    case None => st
    case Some(pos) => NavState(AtEnd(pos, list), AtStart(pos), ScrollingDelay)
  }

  /** The timer callback of the re-check effect; `None` when the list is not mounted. */
  function AfterRecheck(st: NavState, list: Option<ListGeometry>): NavState {
    match list
    case None => st
    case Some(g) => NavState(AtEnd(Px(g.scrollLeft), g), AtStart(Px(g.scrollLeft)), SettledDelay)
  }

  /** Every transition keeps the delay at one of its two values. */
  lemma TransitionsKeepKnownDelay(st: NavState, dir: Direction, slides: Option<seq<Slide>>, list: ListGeometry, measured: Option<ListGeometry>)
    requires KnownDelay(st)
    ensures KnownDelay(AfterClick(st, dir, slides, list))
    ensures KnownDelay(AfterRecheck(st, measured))
  {
  }

  /** A click whose search finds no slide changes nothing. */
  lemma ClickWithoutSlideIsNoOp(st: NavState, dir: Direction, slides: Option<seq<Slide>>, list: ListGeometry)
    requires SlideInDirection(slides, dir).None?
    ensures AfterClick(st, dir, slides, list) == st
  {
  }

  /**
   * A click that finds a slide of width 0 computes a NaN target, and both
   * comparisons with NaN are false: both buttons are enabled.
   */
  lemma ZeroWidthSlideEnablesBoth(st: NavState, dir: Direction, slides: Option<seq<Slide>>, list: ListGeometry)
    requires SlideInDirection(slides, dir).Some?
    requires slides.value[SlideInDirection(slides, dir).value].clientWidth == 0
    ensures AfterClick(st, dir, slides, list) == NavState(false, false, ScrollingDelay)
  {
  }

  /**
   * A previous click that finds a slide of width `w > 0` disables the
   * previous button exactly when the list was scrolled by at most `2w`.
   */
  lemma PrevClickDisablesPreviousIff(st: NavState, slides: Option<seq<Slide>>, list: ListGeometry)
    requires SlideInDirection(slides, Previous).Some?
    requires slides.value[SlideInDirection(slides, Previous).value].clientWidth > 0
    ensures var w := slides.value[SlideInDirection(slides, Previous).value].clientWidth;
      AfterClick(st, Previous, slides, list).prevDisabled <==> list.scrollLeft <= 2 * w
  {
  }

  /**
   * A next click that finds a slide of width `w > 0` disables the previous
   * button only when the list sat more than `w` left of the origin, so
   * never from a non-negative offset.
   */
  lemma NextClickDisablesPreviousIff(st: NavState, slides: Option<seq<Slide>>, list: ListGeometry)
    requires SlideInDirection(slides, Next).Some?
    requires slides.value[SlideInDirection(slides, Next).value].clientWidth > 0
    ensures var w := slides.value[SlideInDirection(slides, Next).value].clientWidth;
      AfterClick(st, Next, slides, list).prevDisabled <==> list.scrollLeft + w < 0
  {
  }

  /**
   * A next click that finds a slide of width `w > 0` disables the next
   * button when at most one slide width of scrolling remains, and leaves it
   * enabled when more than two remain.
   */
  lemma NextClickEndBounds(st: NavState, slides: Option<seq<Slide>>, list: ListGeometry)
    requires SlideInDirection(slides, Next).Some?
    requires slides.value[SlideInDirection(slides, Next).value].clientWidth > 0
    ensures var w := slides.value[SlideInDirection(slides, Next).value].clientWidth;
      var remaining := list.scrollWidth - list.clientWidth - list.scrollLeft;
      (remaining <= w ==> AfterClick(st, Next, slides, list).nextDisabled) &&
      (remaining > 2 * w ==> !AfterClick(st, Next, slides, list).nextDisabled)
  {
  }

  /**
   * A previous click from an offset within the scrollable range (up to one
   * slide width past it) never disables the next button.
   */
  lemma PrevClickEnablesNext(st: NavState, slides: Option<seq<Slide>>, list: ListGeometry)
    requires SlideInDirection(slides, Previous).Some?
    requires slides.value[SlideInDirection(slides, Previous).value].clientWidth > 0
    requires list.scrollLeft <= list.scrollWidth - list.clientWidth
      + slides.value[SlideInDirection(slides, Previous).value].clientWidth
    ensures !AfterClick(st, Previous, slides, list).nextDisabled
  {
  }

  /** The re-check depends on the measured geometry only: running it twice is running it once. */
  lemma RecheckIdempotent(st: NavState, list: Option<ListGeometry>)
    ensures AfterRecheck(AfterRecheck(st, list), list) == AfterRecheck(st, list)
  {
  }

  /** Once the list is mounted, a re-check overrides whatever a click predicted. */
  lemma RecheckOverridesClick(st: NavState, dir: Direction, slides: Option<seq<Slide>>, list: ListGeometry, measured: ListGeometry)
    ensures AfterRecheck(AfterClick(st, dir, slides, list), Some(measured)) == AfterRecheck(st, Some(measured))
  {
  }

  /**
   * The optimistic flags of a click are the ones the re-check measures when
   * the list comes to rest exactly at the requested offset; only the delay
   * returns to its settled value.
   */
  lemma RecheckAtTargetConfirmsClick(st: NavState, dir: Direction, slides: Option<seq<Slide>>, list: ListGeometry)
    requires ScrollRequest(dir, slides, list).Some? && ScrollRequest(dir, slides, list).value.Px?
    ensures var rest := list.(scrollLeft := ScrollRequest(dir, slides, list).value.value);
      AfterRecheck(AfterClick(st, dir, slides, list), Some(rest))
        == AfterClick(st, dir, slides, list).(delay := SettledDelay)
  {
  }

  /**
   * The first re-check at offset 0 keeps the previous button disabled and
   * disables the next button exactly when the content is no wider than the
   * viewport.
   */
  lemma FirstRecheckAtOrigin(scrollWidth: int, clientWidth: int)
    ensures AfterRecheck(Initial, Some(ListGeometry(0, scrollWidth, clientWidth)))
      == NavState(scrollWidth <= clientWidth, true, SettledDelay)
  {
  }

  /** The component's navigation state, updated in place by its handlers. */
  class Carousel {
    var nextDisabled: bool
    var prevDisabled: bool
    var navigationUpdateDelay: nat

    function State(): NavState
      reads this
    {
      NavState(nextDisabled, prevDisabled, navigationUpdateDelay)
    }

    ghost predicate Valid()
      reads this
    {
      KnownDelay(State())
    }

    constructor ()
      ensures Valid() && State() == Initial
    {
      nextDisabled := false;
      prevDisabled := true;
      navigationUpdateDelay := SettledDelay;
    }

    /** handleNextClick: returns the `scrollTo` target it issues, if any. */
    method NextClick(slides: Option<seq<Slide>>, list: ListGeometry) returns (scrollTo: Option<Pos>)
      requires Valid()
      modifies this
      ensures Valid()
      ensures scrollTo == ScrollRequest(Next, slides, list)
      ensures State() == AfterClick(old(State()), Next, slides, list)
    {
      var nextSlide := SlideInDirection(slides, Next);
      if nextSlide.Some? {
        var itemWidth := slides.value[nextSlide.value].clientWidth;
        var nextPos := NextPos(list.scrollLeft, itemWidth);
        scrollTo := Some(nextPos);
        prevDisabled := AtStart(nextPos);
        nextDisabled := AtEnd(nextPos, list);
        navigationUpdateDelay := ScrollingDelay;
      } else {
        scrollTo := None;
      }
    }

    /** handlePrevClick: returns the `scrollTo` target it issues, if any. */
    method PrevClick(slides: Option<seq<Slide>>, list: ListGeometry) returns (scrollTo: Option<Pos>)
      requires Valid()
      modifies this
      ensures Valid()
      ensures scrollTo == ScrollRequest(Previous, slides, list)
      ensures State() == AfterClick(old(State()), Previous, slides, list)
    {
      var prevSlide := SlideInDirection(slides, Previous);
      if prevSlide.Some? {
        var itemWidth := slides.value[prevSlide.value].clientWidth;
        var prevPos := PrevPos(list.scrollLeft, itemWidth);
        scrollTo := Some(prevPos);
        prevDisabled := AtStart(prevPos);
        nextDisabled := AtEnd(prevPos, list);
        navigationUpdateDelay := ScrollingDelay;
      } else {
        scrollTo := None;
      }
    }

    /** The re-check timer callback; `list` is `None` while the list is not mounted. */
    method Recheck(list: Option<ListGeometry>)
      requires Valid()
      modifies this
      ensures Valid()
      ensures State() == AfterRecheck(old(State()), list)
    {
      if list.Some? {
        var g := list.value;
        prevDisabled := g.scrollLeft <= 0;
        nextDisabled := g.scrollWidth - g.scrollLeft - g.clientWidth <= 0;
        navigationUpdateDelay := SettledDelay;
      }
    }
  }

  /**
   * Five slides of 200 pixels in a 400-pixel viewport, two fully visible at
   * a time: two next clicks reach the right edge, and the re-check after the
   * browser stops the scroll at 600 agrees.
   */
  method FiveSlideWalkthrough() {
    var c := new Carousel();
    var list := ListGeometry(0, 1000, 400);
    var slides := [Slide(true, 200), Slide(true, 200), Slide(false, 200), Slide(false, 200), Slide(false, 200)];
    assert Entering(slides, Next, 2) && !Entering(slides, Next, 0) && !Entering(slides, Next, 1);
    var target := c.NextClick(Some(slides), list);
    assert target == Some(Px(400));
    assert !c.prevDisabled && !c.nextDisabled && c.navigationUpdateDelay == ScrollingDelay;

    list := list.(scrollLeft := 400);
    slides := [Slide(false, 200), Slide(false, 200), Slide(true, 200), Slide(true, 200), Slide(false, 200)];
    assert Entering(slides, Next, 4) && forall j :: 0 <= j < 4 ==> !Entering(slides, Next, j);
    target := c.NextClick(Some(slides), list);
    assert target == Some(Px(800));
    assert !c.prevDisabled && c.nextDisabled;

    c.Recheck(Some(list.(scrollLeft := 600)));
    assert !c.prevDisabled && c.nextDisabled && c.navigationUpdateDelay == SettledDelay;
  }
}
