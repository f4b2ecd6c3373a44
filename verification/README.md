# Carousel navigation, modelled in Dafny

A model of the navigation logic of the marketing site's scroll carousel
(`components/marketing/Carousel.tsx`). The carousel is a horizontally
scrollable list of slides with a "next" and a "previous" button. Each click
looks for the first slide that is not fully visible while its neighbour
behind it is. The click then scrolls the list by about two slide widths,
measured from a slide boundary. It sets both button flags at once from the
requested offset and lengthens the delay of the next re-check to 500 ms. The
re-check reads the list's real scroll position, recomputes both flags and
sets the delay back to 100 ms.

Files:

- `wrappers.dfy`: module `Wrappers`, the `Option` type.
- `slides.dfy`: module `Slides`, the slide search (`getSlideInDirection`).
  Each slide is its `data-slide-intersected` flag and its `clientWidth`. An
  unmounted carousel element is `None`.
- `scroll_position.dfy`: module `ScrollPosition`, the next and previous
  scroll targets in whole pixels. A target is `NaN` when the found slide has
  width 0, as in JavaScript.
- `navigation.dfy`: module `Navigation`. It holds the state functions
  `AfterClick` and `AfterRecheck` with their lemmas, and the class
  `Carousel`. The class keeps the fields `nextDisabled`, `prevDisabled` and
  `navigationUpdateDelay`, and its methods `NextClick`, `PrevClick` and
  `Recheck` are proved against those functions. `FiveSlideWalkthrough` walks
  the class through two next clicks and a re-check and asserts the resulting
  states.

Browser inputs become parameters. The slide flags and widths are a
`seq<Slide>`. The list's `scrollLeft`, `scrollWidth` and `clientWidth` are a
`ListGeometry`. The `scrollTo` call is recorded as the target the click
methods return.

`Math.floor(a / w)` for `w > 0` is Dafny's Euclidean `a / w`.
`Math.ceil(a / w)` is `-((-a) / w)`. Neither target is clamped to
`scrollWidth - clientWidth`: the code does not clamp, so a next target can
lie beyond the end of the scrollable range. The browser's `scrollTo` does
the clamping.

## Model

| member | source | states |
|---|---|---|
| `Slides.FindFrom` | components/marketing/Carousel.tsx:33-39 | `find` from index k: a result is an entering slide at or after k with no entering slide between k and it; no result means no slide from k on is entering |
| `Slides.SlideInDirection` | components/marketing/Carousel.tsx:30-41 | a result exists iff the carousel is mounted and some slide is entering; the result is the least entering slide: hidden, with the neighbour at `index - direction` inside the list and visible |
| `Slides.NextFindsNothingIff` | components/marketing/Carousel.tsx:33-39 | the search for a next slide finds nothing iff every visible slide is followed only by visible slides (the right edge) |
| `Slides.PreviousFindsNothingIff` | components/marketing/Carousel.tsx:33-39 | the search for a previous slide finds nothing iff every visible slide is preceded only by visible slides (the left edge) |
| `ScrollPosition.FloorDiv` | components/marketing/Carousel.tsx:48 | `Math.floor(a / w)` for `w > 0`: the q with `q*w <= a < q*w + w` |
| `ScrollPosition.CeilDiv` | components/marketing/Carousel.tsx:64 | `Math.ceil(a / w)` for `w > 0`: the q with `q*w - w < a <= q*w` |
| `ScrollPosition.NextPos` | components/marketing/Carousel.tsx:47-48 | NaN iff the item width is 0; otherwise a multiple of the width, more than one and at most two widths right of `scrollLeft` |
| `ScrollPosition.PrevPos` | components/marketing/Carousel.tsx:63-64 | NaN iff the item width is 0; otherwise a multiple of the width, more than one and at most two widths left of `scrollLeft` |
| `ScrollPosition.NextPosUnique` | components/marketing/Carousel.tsx:48 | the next target is the only multiple of the width in `(scrollLeft + w, scrollLeft + 2w]` |
| `ScrollPosition.PrevPosUnique` | components/marketing/Carousel.tsx:64 | the previous target is the only multiple of the width in `[scrollLeft - 2w, scrollLeft - w)` |
| `ScrollPosition.PrevAfterNext` | components/marketing/Carousel.tsx:48-64 | previous after next lands on the slide boundary at or before the start, and on the start itself when that is a boundary |
| `ScrollPosition.NextAfterPrev` | components/marketing/Carousel.tsx:48-64 | next after previous lands on the slide boundary at or after the start, and on the start itself when that is a boundary |
| `ScrollPosition.PrevPosAtStartIff` | components/marketing/Carousel.tsx:64-68 | the previous target is `<= 0` iff `scrollLeft <= 2w` |
| `ScrollPosition.NextPosAtStartIff` | components/marketing/Carousel.tsx:48-52 | the next target is `<= 0` iff `scrollLeft + w < 0` |
| `Navigation.ScrollRequest` | components/marketing/Carousel.tsx:44-65 | a click issues a `scrollTo` iff the search finds a slide; the target is NaN iff the found slide has width 0; for a found width `w > 0` it is a multiple of `w` in `(scrollLeft + w, scrollLeft + 2w]` for next and in `[scrollLeft - 2w, scrollLeft - w)` for previous; a pixel target lies right of `scrollLeft` iff the click is a next click |
| `Navigation.TransitionsKeepKnownDelay` | components/marketing/Carousel.tsx:27-86 | clicks and re-checks keep the re-check delay at 100 or 500 ms |
| `Navigation.ClickWithoutSlideIsNoOp` | components/marketing/Carousel.tsx:44-61 | a next or previous click whose search finds no slide (lines 44-45, 60-61) changes neither flag nor the delay |
| `Navigation.ZeroWidthSlideEnablesBoth` | components/marketing/Carousel.tsx:47-71 | a next or previous click (lines 47-55, 63-71) that finds a zero-width slide enables both buttons (NaN comparisons are false) and sets the delay to 500 |
| `Navigation.PrevClickDisablesPreviousIff` | components/marketing/Carousel.tsx:63-68 | after a previous click with item width `w > 0`, `prevDisabled` iff `scrollLeft <= 2w` |
| `Navigation.NextClickDisablesPreviousIff` | components/marketing/Carousel.tsx:47-52 | after a next click with item width `w > 0`, `prevDisabled` iff `scrollLeft + w < 0`, so never from a non-negative offset |
| `Navigation.NextClickEndBounds` | components/marketing/Carousel.tsx:48-53 | a next click disables next when at most one item width of scrolling remains, and keeps it enabled when more than two remain |
| `Navigation.PrevClickEnablesNext` | components/marketing/Carousel.tsx:64-69 | a previous click from within the scrollable range (plus one width) leaves next enabled |
| `Navigation.RecheckIdempotent` | components/marketing/Carousel.tsx:82-86 | two re-checks with the same geometry give the state one gives |
| `Navigation.RecheckOverridesClick` | components/marketing/Carousel.tsx:80-89 | a re-check on a mounted list gives the same state whatever click came before it |
| `Navigation.RecheckAtTargetConfirmsClick` | components/marketing/Carousel.tsx:52-86 | when the list comes to rest at the requested offset, the re-check confirms the click's flags and only resets the delay to 100 |
| `Navigation.FirstRecheckAtOrigin` | components/marketing/Carousel.tsx:24-86 | from the initial state, a re-check at offset 0 keeps previous disabled and disables next iff `scrollWidth <= clientWidth` |
| `Navigation.Carousel.constructor` | components/marketing/Carousel.tsx:24-27 | initial state: next enabled, previous disabled, delay 100 |
| `Navigation.Carousel.NextClick` | components/marketing/Carousel.tsx:43-57 | returns the target it scrolls to; new state is `AfterClick(old state, Next, …)`: with a slide found, `prevDisabled == (pos <= 0)`, `nextDisabled == (scrollWidth - pos - clientWidth <= 0)`, delay 500, otherwise unchanged |
| `Navigation.Carousel.PrevClick` | components/marketing/Carousel.tsx:59-73 | the same for a previous click, with the previous target |
| `Navigation.Carousel.Recheck` | components/marketing/Carousel.tsx:80-89 | on a mounted list, `prevDisabled == (scrollLeft <= 0)`, `nextDisabled == (scrollWidth - scrollLeft - clientWidth <= 0)`, delay 100; otherwise nothing changes |

## Left out

- The IntersectionObserver that keeps each slide's flag (lines 139-151): a browser facility. The flags are an input.
- Timers, `requestAnimationFrame`, the lodash `debounce` of scroll and resize events, and adding and removing the listeners (lines 75-107): event-loop timing and library behaviour. The re-check is a method called with the geometry it measures. The delay it schedules with is only recorded in `navigationUpdateDelay`.
- The `smoothscroll` polyfill and the `scrollTo` animation (lines 28, 49, 65): the click methods return the requested target and do not move the list.
- React context, refs and rendering, and the components `CarouselSlideList`, `CarouselSlide`, `CarouselNext` and `CarouselPrevious` (lines 10-17, 109-170). The buttons' native disabled behaviour, which stops a click on a disabled button, is part of this.
- Fractional scroll offsets and widths: all geometry is in whole pixels.
- A click when the carousel element is mounted but the slide list element is not: the source reads `slideListRef.current` without a check and would throw. The click methods take the list geometry as a plain value.
- `NodeList.item` converts its index to a 32-bit unsigned integer, so a negative index wraps modulo `2^32` (`item(-1)` asks for index `2^32 - 1`). The model reads every index outside the list as absent, which agrees with the browser for any list shorter than `2^32 - 1` slides.
- `pages/case-studies/index.tsx` is not part of this model: it is static layout with no behaviour.
