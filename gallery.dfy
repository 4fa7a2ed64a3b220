/** The image gallery of js/components/img_gallery.js: a horizontally
  * scrolling `.gallery-track` with previous/next buttons, and a lightbox
  * that shows a clicked image. Lengths in CSS pixels are reals; a parsed
  * CSS length is `Some(x)`, a value `parseFloat` turns into NaN is `None`. */
module Gallery {
  import opened Dom

  // ---------------------------------------------------------------------
  // Scroll geometry

  function Max(a: real, b: real): real
  {
    if a >= b then a else b
  }

  function Min(a: real, b: real): real
  {
    if a <= b then a else b
  }

  /** `Math.max(0, scrollWidth - clientWidth)`: how far the track can
    * scroll. */
  function MaxScroll(scrollWidth: real, clientWidth: real): (r: real)
    ensures r >= 0.0 && r >= scrollWidth - clientWidth
    ensures r == 0.0 || r == scrollWidth - clientWidth
  {
    Max(0.0, scrollWidth - clientWidth)
  }

  /** `clampScroll` on a track: the target pulled into `[0, maxScroll]`. */
  function Clamp(target: real, scrollWidth: real, clientWidth: real): (r: real)
    ensures 0.0 <= r <= MaxScroll(scrollWidth, clientWidth)
    ensures 0.0 <= target <= MaxScroll(scrollWidth, clientWidth) ==> r == target
    ensures target < 0.0 ==> r == 0.0
    ensures target > MaxScroll(scrollWidth, clientWidth) ==> r == MaxScroll(scrollWidth, clientWidth)
  {
    Min(Max(0.0, target), MaxScroll(scrollWidth, clientWidth))
  }

  /** `clampScroll`, which yields 0 when there is no track. */
  function ClampScroll(hasTrack: bool, target: real, scrollWidth: real, clientWidth: real): real
  {
    if !hasTrack then 0.0 else Clamp(target, scrollWidth, clientWidth)
  }

  /** No candidate before index `j` parses. */
  predicate FirstSome(candidates: seq<Option<real>>, j: int)
    requires 0 <= j <= |candidates|
  {
    forall k :: 0 <= k < j ==> candidates[k].None?
  }

  /** The first candidate that parses, 0 when none does. */
  function FirstParsed(candidates: seq<Option<real>>): (r: real)
    ensures (forall i :: 0 <= i < |candidates| ==> candidates[i].None?) ==> r == 0.0
    ensures forall j :: 0 <= j < |candidates| && candidates[j].Some? && FirstSome(candidates, j) ==>
      r == candidates[j].value
  {
    if |candidates| == 0 then 0.0
    else if candidates[0].Some? then candidates[0].value
    else
      var rest := FirstParsed(candidates[1..]);
      assert forall j :: 1 <= j < |candidates| && FirstSome(candidates, j) ==> FirstSome(candidates[1..], j - 1);
      rest
  }

  /** `getGap`: the track's `column-gap`, else its `gap`, else 0. */
  function GapOf(hasTrack: bool, columnGap: Option<real>, gap: Option<real>): real
  {
    if !hasTrack then 0.0 else FirstParsed([columnGap, gap])
  }

  /** `getStep`: 300 without a track, 60% of the track's width but at least
    * 200 without a card, else the first card's width plus the gap. */
  function StepFor(hasTrack: bool, clientWidth: real, cardWidth: Option<real>,
                   columnGap: Option<real>, gap: Option<real>): real
  {
    if !hasTrack then 300.0
    else match cardWidth
      case None => Max(clientWidth * 0.6, 200.0)
      case Some(w) => w + GapOf(hasTrack, columnGap, gap)
  }

  /** The previous button is disabled within 4px of the start. */
  predicate PrevDisabled(current: real)
  {
    current <= 4.0
  }

  /** The next button is disabled within 4px of the end. */
  predicate NextDisabled(current: real, scrollWidth: real, clientWidth: real)
  {
    current >= MaxScroll(scrollWidth, clientWidth) - 4.0
  }

  /** The position `scrollByStep(direction)` scrolls the track to. */
  function ScrollTarget(current: real, direction: int, step: real, scrollWidth: real, clientWidth: real): real
  {
    Clamp(current + direction as real * step, scrollWidth, clientWidth)
  }

  /** Clamping an in-range position changes nothing, so clamping twice is
    * clamping once; clamping keeps the order of targets. */
  lemma ClampIdempotentMonotone(a: real, b: real, scrollWidth: real, clientWidth: real)
    ensures Clamp(Clamp(a, scrollWidth, clientWidth), scrollWidth, clientWidth) == Clamp(a, scrollWidth, clientWidth)
    ensures a <= b ==> Clamp(a, scrollWidth, clientWidth) <= Clamp(b, scrollWidth, clientWidth)
  {
  }

  /** The gap prefers `column-gap`, falls back on `gap` and then on 0. */
  lemma GapFallbacks(columnGap: Option<real>, gap: Option<real>)
    ensures columnGap.Some? ==> GapOf(true, columnGap, gap) == columnGap.value
    ensures columnGap.None? && gap.Some? ==> GapOf(true, columnGap, gap) == gap.value
    ensures columnGap.None? && gap.None? ==> GapOf(true, columnGap, gap) == 0.0
  {
    var c := [columnGap, gap];
    if columnGap.None? && gap.Some? {
      assert c[1].Some?;
    }
    if columnGap.None? && gap.None? {
      assert forall i :: 0 <= i < |c| ==> c[i].None?;
    }
  }

  /** Without a card the step is at least 200px and at least 60% of the
    * visible width; with one it is the card's width plus the gap. */
  lemma StepBounds(clientWidth: real, cardWidth: Option<real>, columnGap: Option<real>, gap: Option<real>)
    ensures StepFor(false, clientWidth, cardWidth, columnGap, gap) == 300.0
    ensures cardWidth.None? ==>
      var s := StepFor(true, clientWidth, cardWidth, columnGap, gap);
      s >= 200.0 && s >= clientWidth * 0.6 && (s == 200.0 || s == clientWidth * 0.6)
    ensures cardWidth.Some? ==>
      StepFor(true, clientWidth, cardWidth, columnGap, gap) == cardWidth.value + GapOf(true, columnGap, gap)
  {
    GapFallbacks(columnGap, gap);
  }

  /** A track whose content fits has both buttons disabled. */
  lemma FittingTrackDisablesBoth(current: real, scrollWidth: real, clientWidth: real)
    requires scrollWidth <= clientWidth
    requires 0.0 <= current <= MaxScroll(scrollWidth, clientWidth)
    ensures PrevDisabled(current) && NextDisabled(current, scrollWidth, clientWidth)
  {
  }

  /** With more than 8px to scroll, the two buttons are never disabled at
    * once. */
  lemma NeverBothDisabled(current: real, scrollWidth: real, clientWidth: real)
    requires MaxScroll(scrollWidth, clientWidth) > 8.0
    ensures !(PrevDisabled(current) && NextDisabled(current, scrollWidth, clientWidth))
  {
  }

  /** From an in-range position, a positive step forward never moves back
    * and moves at most one step; backward is symmetric. A step that would
    * pass an end stops at that end, which disables its button. */
  lemma StepDirection(current: real, step: real, scrollWidth: real, clientWidth: real)
    requires step > 0.0 && 0.0 <= current <= MaxScroll(scrollWidth, clientWidth)
    ensures current <= ScrollTarget(current, 1, step, scrollWidth, clientWidth) <= current + step
    ensures current - step <= ScrollTarget(current, -1, step, scrollWidth, clientWidth) <= current
    ensures current + step >= MaxScroll(scrollWidth, clientWidth) ==>
      && ScrollTarget(current, 1, step, scrollWidth, clientWidth) == MaxScroll(scrollWidth, clientWidth)
      && NextDisabled(ScrollTarget(current, 1, step, scrollWidth, clientWidth), scrollWidth, clientWidth)
    ensures current - step <= 0.0 ==>
      && ScrollTarget(current, -1, step, scrollWidth, clientWidth) == 0.0
      && PrevDisabled(ScrollTarget(current, -1, step, scrollWidth, clientWidth))
  {
  }

  /** A click on the previous button whose disabled state is current: a
    * disabled button takes no click, and a zero step does not scroll. */
  function PrevClicked(current: real, step: real, scrollWidth: real, clientWidth: real): real
  {
    if PrevDisabled(current) || step == 0.0 then current else ScrollTarget(current, -1, step, scrollWidth, clientWidth)
  }

  /** A click on the next button whose disabled state is current. */
  function NextClicked(current: real, step: real, scrollWidth: real, clientWidth: real): real
  {
    if NextDisabled(current, scrollWidth, clientWidth) || step == 0.0 then current
    else ScrollTarget(current, 1, step, scrollWidth, clientWidth)
  }

  /** The position after `n` clicks on the next button, each followed by the
    * scroll event that refreshes the buttons. */
  function Forward(current: real, step: real, scrollWidth: real, clientWidth: real, n: nat): real
    decreases n
  {
    if n == 0 then current
    else Forward(NextClicked(current, step, scrollWidth, clientWidth), step, scrollWidth, clientWidth, n - 1)
  }

  /** Once the next button is disabled, further clicks do nothing. */
  lemma {:induction false} DisabledNextStaysPut(current: real, step: real, scrollWidth: real, clientWidth: real, n: nat)
    requires NextDisabled(current, scrollWidth, clientWidth)
    ensures Forward(current, step, scrollWidth, clientWidth, n) == current
    decreases n
  {
    if n > 0 {
      DisabledNextStaysPut(current, step, scrollWidth, clientWidth, n - 1);
    }
  }

  /** Enough clicks on the next button bring the track within 4px of its
    * end, where the button is disabled and the track stays. */
  lemma {:induction false} EnoughClicksDisableNext(current: real, step: real, scrollWidth: real, clientWidth: real, n: nat)
    requires step > 0.0 && 0.0 <= current <= MaxScroll(scrollWidth, clientWidth)
    requires n as real * step >= MaxScroll(scrollWidth, clientWidth) - current
    ensures NextDisabled(Forward(current, step, scrollWidth, clientWidth, n), scrollWidth, clientWidth)
    ensures MaxScroll(scrollWidth, clientWidth) - 4.0 <= Forward(current, step, scrollWidth, clientWidth, n)
                                                     <= MaxScroll(scrollWidth, clientWidth)
    decreases n
  {
    if NextDisabled(current, scrollWidth, clientWidth) {
      DisabledNextStaysPut(current, step, scrollWidth, clientWidth, n);
    } else {
      assert n > 0;
      var next := NextClicked(current, step, scrollWidth, clientWidth);
      assert (n - 1) as real * step == n as real * step - step;
      if current + step >= MaxScroll(scrollWidth, clientWidth) {
        assert next == MaxScroll(scrollWidth, clientWidth);
        DisabledNextStaysPut(next, step, scrollWidth, clientWidth, n - 1);
      } else {
        assert next == current + step;
        EnoughClicksDisableNext(next, step, scrollWidth, clientWidth, n - 1);
      }
    }
  }

  /** A 900px scroll range covered in 300px steps: three clicks reach 900,
    * where the next button is disabled, so the track stays 2px short of
    * its end of 902 however often the button is clicked. */
  lemma StopsShortOfEnd()
    ensures Forward(0.0, 300.0, 1102.0, 200.0, 3) == 900.0
    ensures NextDisabled(900.0, 1102.0, 200.0)
    ensures Forward(0.0, 300.0, 1102.0, 200.0, 4) == 900.0
  {
    assert NextClicked(0.0, 300.0, 1102.0, 200.0) == 300.0;
    assert NextClicked(300.0, 300.0, 1102.0, 200.0) == 600.0;
    assert NextClicked(600.0, 300.0, 1102.0, 200.0) == 900.0;
    DisabledNextStaysPut(900.0, 300.0, 1102.0, 200.0, 1);
  }

  /** The scrolling part of the gallery: the track's geometry, its first
    * card's width and its parsed gaps, and the two buttons. */
  class GalleryNav {
    const hasTrack: bool
    var scrollLeft: real
    var scrollWidth: real
    var clientWidth: real
    var cardWidth: Option<real>
    var columnGap: Option<real>
    var gap: Option<real>
    const hasPrev: bool
    const hasNext: bool
    var prevDisabled: bool
    var nextDisabled: bool

    /** The buttons' disabled state is the one `updateNavState` computes for
      * the current position and geometry. */
    predicate Synced()
      reads this
    {
      hasTrack ==>
        && (hasPrev ==> prevDisabled == PrevDisabled(scrollLeft))
        && (hasNext ==> nextDisabled == NextDisabled(scrollLeft, scrollWidth, clientWidth))
    }

    /** Setting up: the buttons start as the markup has them and, with a
      * track, their state is computed once. */
    constructor (hasTrack: bool, scrollLeft: real, scrollWidth: real, clientWidth: real,
                 cardWidth: Option<real>, columnGap: Option<real>, gap: Option<real>,
                 hasPrev: bool, hasNext: bool, prevDisabled: bool, nextDisabled: bool)
      ensures this.hasTrack == hasTrack && this.scrollLeft == scrollLeft
      ensures this.scrollWidth == scrollWidth && this.clientWidth == clientWidth
      ensures this.cardWidth == cardWidth && this.columnGap == columnGap && this.gap == gap
      ensures this.hasPrev == hasPrev && this.hasNext == hasNext
      ensures Synced()
      ensures !(hasTrack && hasPrev) ==> this.prevDisabled == prevDisabled
      ensures !(hasTrack && hasNext) ==> this.nextDisabled == nextDisabled
    {
      this.hasTrack := hasTrack;
      this.scrollLeft := scrollLeft;
      this.scrollWidth := scrollWidth;
      this.clientWidth := clientWidth;
      this.cardWidth := cardWidth;
      this.columnGap := columnGap;
      this.gap := gap;
      this.hasPrev := hasPrev;
      this.hasNext := hasNext;
      this.prevDisabled := prevDisabled;
      this.nextDisabled := nextDisabled;
      new;
      if hasTrack {
        UpdateNavState();
      }
    }

    /** `getGap`: the first candidate among `column-gap` and `gap` that
      * parses. */
    method GetGap() returns (result: real)
      ensures result == GapOf(hasTrack, columnGap, gap)
    {
      if !hasTrack {
        return 0.0;
      }
      var candidates := [columnGap, gap];
      var i := 0;
      while i < |candidates|
        invariant 0 <= i <= |candidates|
        invariant FirstParsed(candidates[i..]) == FirstParsed(candidates)
      {
        if candidates[i].Some? {
          return candidates[i].value;
        }
        assert candidates[i..][1..] == candidates[i + 1..];
        i := i + 1;
      }
      return 0.0;
    }

    method GetStep() returns (step: real)
      ensures step == StepFor(hasTrack, clientWidth, cardWidth, columnGap, gap)
    {
      if !hasTrack {
        return 300.0;
      }
      if cardWidth.None? {
        return Max(clientWidth * 0.6, 200.0);
      }
      var g := GetGap();
      step := cardWidth.value + g;
    }

    /** `updateNavState`: each present button is disabled near its end of
      * the track. */
    method UpdateNavState()
      modifies this`prevDisabled, this`nextDisabled
      ensures prevDisabled == if hasTrack && hasPrev then PrevDisabled(scrollLeft) else old(prevDisabled)
      ensures nextDisabled == if hasTrack && hasNext then NextDisabled(scrollLeft, scrollWidth, clientWidth) else old(nextDisabled)
      ensures Synced()
    {
      if !hasTrack {
        return;
      }
      var maxScroll := Max(0.0, scrollWidth - clientWidth);
      var current := scrollLeft;
      if hasPrev {
        prevDisabled := current <= 4.0;
      }
      if hasNext {
        nextDisabled := current >= maxScroll - 4.0;
      }
    }

    /** The track's scroll listener, which runs once a scroll has moved it. */
    method Scrolled()
      requires hasTrack
      modifies this`prevDisabled, this`nextDisabled
      ensures Synced()
      ensures !hasPrev ==> prevDisabled == old(prevDisabled)
      ensures !hasNext ==> nextDisabled == old(nextDisabled)
    {
      UpdateNavState();
    }

    /** `scrollByStep(direction)`: the track ends at the clamped position one
      * step away; a zero step leaves it where it is. */
    method ScrollByStep(direction: int)
      modifies this`scrollLeft
      ensures var step := StepFor(hasTrack, clientWidth, cardWidth, columnGap, gap);
        scrollLeft == if !hasTrack || step == 0.0 then old(scrollLeft)
                      else ScrollTarget(old(scrollLeft), direction, step, scrollWidth, clientWidth)
    {
      if !hasTrack {
        return;
      }
      var step := GetStep();
      if step == 0.0 {
        return;
      }
      var target := ClampScroll(hasTrack, scrollLeft + direction as real * step, scrollWidth, clientWidth);
      scrollLeft := target;
    }

    /** A click on the previous button; a disabled button takes none. With
      * the buttons' state current, this is `PrevClicked`. */
    method ClickPrev()
      requires hasPrev
      modifies this`scrollLeft
      ensures var step := StepFor(hasTrack, clientWidth, cardWidth, columnGap, gap);
        scrollLeft == if old(prevDisabled) || !hasTrack || step == 0.0 then old(scrollLeft)
                      else ScrollTarget(old(scrollLeft), -1, step, scrollWidth, clientWidth)
      ensures hasTrack && old(Synced()) ==>
        scrollLeft == PrevClicked(old(scrollLeft), StepFor(hasTrack, clientWidth, cardWidth, columnGap, gap), scrollWidth, clientWidth)
    {
      if prevDisabled {
        return;
      }
      ScrollByStep(-1);
    }

    /** A click on the next button; a disabled button takes none. With the
      * buttons' state current, this is `NextClicked`. */
    method ClickNext()
      requires hasNext
      modifies this`scrollLeft
      ensures var step := StepFor(hasTrack, clientWidth, cardWidth, columnGap, gap);
        scrollLeft == if old(nextDisabled) || !hasTrack || step == 0.0 then old(scrollLeft)
                      else ScrollTarget(old(scrollLeft), 1, step, scrollWidth, clientWidth)
      ensures hasTrack && old(Synced()) ==>
        scrollLeft == NextClicked(old(scrollLeft), StepFor(hasTrack, clientWidth, cardWidth, columnGap, gap), scrollWidth, clientWidth)
    {
      if nextDisabled {
        return;
      }
      ScrollByStep(1);
    }

    /** The window's resize handler, registered only when there is a track.
      * The new layout brings a new geometry, card width and gaps (which
      * `getStep` re-reads on every click), and the browser keeps the
      * position within the new range; the handler then recomputes the
      * buttons' state. */
    method Resize(newScrollWidth: real, newClientWidth: real, newCardWidth: Option<real>,
                  newColumnGap: Option<real>, newGap: Option<real>)
      requires hasTrack
      modifies this
      ensures scrollWidth == newScrollWidth && clientWidth == newClientWidth
      ensures cardWidth == newCardWidth && columnGap == newColumnGap && gap == newGap
      ensures scrollLeft == Clamp(old(scrollLeft), newScrollWidth, newClientWidth)
      ensures Synced()
      ensures !hasPrev ==> prevDisabled == old(prevDisabled)
      ensures !hasNext ==> nextDisabled == old(nextDisabled)
    {
      scrollWidth := newScrollWidth;
      clientWidth := newClientWidth;
      cardWidth := newCardWidth;
      columnGap := newColumnGap;
      gap := newGap;
      scrollLeft := Clamp(scrollLeft, scrollWidth, clientWidth);
      UpdateNavState();
    }
  }

  // ---------------------------------------------------------------------
  // Lightbox

  /** A clicked gallery image: its `src`, `data-title` and `alt` ("" when
    * absent). */
  datatype Image = Image(src: string, dataTitle: string, alt: string)

  /** The title shown for an image: its `data-title`, else its `alt`, else
    * "Imagen"; never empty. */
  function TitleOf(img: Image): (r: string)
    ensures r != ""
    ensures img.dataTitle != "" ==> r == img.dataTitle
    ensures img.dataTitle == "" && img.alt != "" ==> r == img.alt
    ensures r == img.dataTitle || r == img.alt || r == "Imagen"
  {
    if img.dataTitle != "" then img.dataTitle else if img.alt != "" then img.alt else "Imagen"
  }

  /** The lightbox: `hidden`, `is-open`, the image's `src` and `alt`, the
    * caption, the body's `overflow`, and how many animation-frame and
    * timeout callbacks are still pending. */
  datatype LightboxView = LightboxView(hidden: bool, isOpen: bool, imgSrc: string, imgAlt: string,
                                       caption: string, bodyOverflow: string, frames: nat, timers: nat)

  /** `openLightbox(img)`; `complete` says the image and caption elements
    * exist. `is-open` is added later, by the frame callback. */
  function Opened(v: LightboxView, complete: bool, img: Image): LightboxView
  {
    if !complete then v
    else v.(imgSrc := img.src, imgAlt := TitleOf(img), caption := TitleOf(img), hidden := false,
            bodyOverflow := "hidden", frames := v.frames + 1)
  }

  /** `closeLightbox()`: `hidden` is set later, by the timeout callback. */
  function Closed(v: LightboxView): LightboxView
  {
    v.(isOpen := false, bodyOverflow := "", timers := v.timers + 1)
  }

  /** A pending animation-frame callback runs: `is-open` is added. */
  function FrameFired(v: LightboxView): LightboxView
    requires v.frames > 0
  {
    v.(isOpen := true, frames := v.frames - 1)
  }

  /** A pending timeout runs: the lightbox is hidden unless it is open. */
  function TimerFired(v: LightboxView): LightboxView
    requires v.timers > 0
  {
    v.(hidden := if !v.isOpen then true else v.hidden, timers := v.timers - 1)
  }

  /** The document's keydown handler. */
  function OnKeyDown(v: LightboxView, key: string): LightboxView
  {
    if key == "Escape" then Closed(v) else v
  }

  /** The lightbox's own click handler: only a click on the backdrop itself
    * closes it. */
  function OnLightboxClick(v: LightboxView, targetIsLightbox: bool): LightboxView
  {
    if targetIsLightbox then Closed(v) else v
  }

  /** Opening shows the image with its title as `alt` and caption and locks
    * page scrolling; its frame then marks it open. */
  lemma OpenThenFrameShows(v: LightboxView, img: Image)
    ensures var w := FrameFired(Opened(v, true, img));
      && !w.hidden && w.isOpen && w.imgSrc == img.src
      && w.imgAlt == TitleOf(img) && w.caption == TitleOf(img) && w.bodyOverflow == "hidden"
      && w.frames == v.frames && w.timers == v.timers
    ensures Opened(v, false, img) == v
  {
  }

  /** Closing an open lightbox and letting its timeout run hides it and
    * unlocks page scrolling. */
  lemma CloseThenTimerHides(v: LightboxView)
    ensures var w := TimerFired(Closed(v));
      w.hidden && !w.isOpen && w.bodyOverflow == "" && w.frames == v.frames && w.timers == v.timers
  {
  }

  /** Reopening before the pending timeout runs keeps the lightbox shown,
    * provided the new frame runs first: the timeout then finds `is-open`. */
  lemma ReopenAfterFrameStaysVisible(v: LightboxView, img: Image)
    ensures var w := TimerFired(FrameFired(Opened(Closed(v), true, img)));
      !w.hidden && w.isOpen && w.imgSrc == img.src && w.frames == v.frames && w.timers == v.timers
  {
  }

  /** Escape and a backdrop click close like the close button; other keys
    * and clicks inside the dialog change nothing. */
  lemma CloseTriggers(v: LightboxView, key: string, targetIsLightbox: bool)
    ensures OnKeyDown(v, key) == (if key == "Escape" then Closed(v) else v)
    ensures OnLightboxClick(v, targetIsLightbox) == (if targetIsLightbox then Closed(v) else v)
    ensures key == "Escape" ==> !OnKeyDown(v, key).isOpen && OnKeyDown(v, key).timers == v.timers + 1
  {
  }

  /** The lightbox at rest, closed. */
  const Rest: LightboxView := LightboxView(true, false, "", "", "", "", 0, 0)

  /** Reopening between a close and its timeout: if the old timeout runs
    * before the new frame, it hides the lightbox, and the frame then marks
    * it open. Nothing is pending afterwards and the page is locked, yet the
    * lightbox stays hidden. */
  lemma ReopenBeforeFrameStaysHidden(img: Image)
    ensures var open1 := FrameFired(Opened(Rest, true, img));
      var w := FrameFired(TimerFired(Opened(Closed(open1), true, img)));
      && w.hidden && w.isOpen && w.bodyOverflow == "hidden" && w.frames == 0 && w.timers == 0
  {
  }

  /** Closing before the opening frame has run: the frame marks the
    * lightbox open after the close, so the timeout leaves it shown.
    * Nothing is pending afterwards and the page is unlocked, yet the
    * lightbox stays visible. */
  lemma CloseBeforeFrameStaysOpen(img: Image)
    ensures var w := TimerFired(FrameFired(Closed(Opened(Rest, true, img))));
      && !w.hidden && w.isOpen && w.bodyOverflow == "" && w.frames == 0 && w.timers == 0
  {
  }

  // Corrected lightbox: opening cancels the pending hide (`clearTimeout`),
  // closing cancels the pending open (`cancelAnimationFrame`).

  function OpenedCancelling(v: LightboxView, complete: bool, img: Image): LightboxView
  {
    if !complete then v else Opened(v, complete, img).(timers := 0)
  }

  function ClosedCancelling(v: LightboxView): LightboxView
  {
    Closed(v).(frames := 0)
  }

  /** An event the lightbox reacts to. */
  datatype Event = OpenImage(img: Image) | Close | Frame | Timer

  /** One event on the corrected lightbox; None when a callback fires that
    * is not pending. */
  function StepCancelling(v: LightboxView, complete: bool, e: Event): Option<LightboxView>
  {
    match e
    case OpenImage(img) => Some(OpenedCancelling(v, complete, img))
    case Close => Some(ClosedCancelling(v))
    case Frame => if v.frames > 0 then Some(FrameFired(v)) else None
    case Timer => if v.timers > 0 then Some(TimerFired(v)) else None
  }

  function RunCancelling(v: LightboxView, complete: bool, es: seq<Event>): Option<LightboxView>
    decreases |es|
  {
    if |es| == 0 then Some(v)
    else match StepCancelling(v, complete, es[0])
      case None => None
      case Some(w) => RunCancelling(w, complete, es[1..])
  }

  /** Whether the last effective call asked for the lightbox to be open. */
  function WantOpen(wantOpen: bool, complete: bool, es: seq<Event>): bool
    decreases |es|
  {
    if |es| == 0 then wantOpen
    else
      var w := match es[0]
        case OpenImage(_) => if complete then true else wantOpen
        case Close => false
        case _ => wantOpen;
      WantOpen(w, complete, es[1..])
  }

  /** The corrected lightbox's invariant: while it should be open nothing
    * will hide it and it is open or about to be; while it should be closed
    * nothing will open it and it is hidden or about to be. */
  predicate Heading(v: LightboxView, wantOpen: bool)
  {
    if wantOpen then v.timers == 0 && !v.hidden && (v.isOpen || v.frames > 0)
    else v.frames == 0 && !v.isOpen && (v.hidden || v.timers > 0)
  }

  /** Every event keeps the corrected lightbox heading for the state the
    * last call asked for. */
  lemma {:induction false} CancellingKeepsHeading(v: LightboxView, complete: bool, wantOpen: bool, es: seq<Event>)
    requires Heading(v, wantOpen)
    ensures RunCancelling(v, complete, es).Some? ==> Heading(RunCancelling(v, complete, es).value, WantOpen(wantOpen, complete, es))
    decreases |es|
  {
    if |es| > 0 {
      var s := StepCancelling(v, complete, es[0]);
      var w := match es[0]
        case OpenImage(_) => if complete then true else wantOpen
        case Close => false
        case _ => wantOpen;
      if s.Some? {
        assert Heading(s.value, w);
        CancellingKeepsHeading(s.value, complete, w, es[1..]);
      }
    }
  }

  /** Once no callback is pending, the corrected lightbox is shown and open
    * exactly when the last call opened it, and hidden and closed
    * otherwise, whatever the order in which the callbacks ran. */
  lemma {:induction false} CancellingSettles(complete: bool, es: seq<Event>)
    requires RunCancelling(Rest, complete, es).Some?
    requires RunCancelling(Rest, complete, es).value.frames == 0
    requires RunCancelling(Rest, complete, es).value.timers == 0
    ensures var w := RunCancelling(Rest, complete, es).value;
      && (WantOpen(false, complete, es) ==> !w.hidden && w.isOpen)
      && (!WantOpen(false, complete, es) ==> w.hidden && !w.isOpen)
  {
    CancellingKeepsHeading(Rest, complete, false, es);
  }

  /** The lightbox as the page holds it. */
  class Lightbox {
    var hidden: bool
    var isOpen: bool
    var imgSrc: string
    var imgAlt: string
    var caption: string
    var bodyOverflow: string
    var frames: nat
    var timers: nat
    /** Whether the image and caption elements exist. */
    const complete: bool

    function View(): LightboxView
      reads this
    {
      LightboxView(hidden, isOpen, imgSrc, imgAlt, caption, bodyOverflow, frames, timers)
    }

    constructor (complete: bool)
      ensures View() == Rest && this.complete == complete
    {
      hidden := true;
      isOpen := false;
      imgSrc := "";
      imgAlt := "";
      caption := "";
      bodyOverflow := "";
      frames := 0;
      timers := 0;
      this.complete := complete;
    }

    /** A click on a gallery image. */
    method Open(img: Image)
      modifies this
      ensures View() == Opened(old(View()), complete, img)
    {
      if !complete {
        return;
      }
      var title := if img.dataTitle != "" then img.dataTitle else if img.alt != "" then img.alt else "Imagen";
      imgSrc := img.src;
      imgAlt := title;
      caption := title;
      hidden := false;
      frames := frames + 1;
      bodyOverflow := "hidden";
    }

    /** A click on the close button. */
    method Close()
      modifies this
      ensures View() == Closed(old(View()))
    {
      isOpen := false;
      bodyOverflow := "";
      timers := timers + 1;
    }

    method RunFrame()
      requires frames > 0
      modifies this
      ensures View() == FrameFired(old(View()))
    {
      isOpen := true;
      frames := frames - 1;
    }

    method RunTimer()
      requires timers > 0
      modifies this
      ensures View() == TimerFired(old(View()))
    {
      if !isOpen {
        hidden := true;
      }
      timers := timers - 1;
    }

    method KeyDown(key: string)
      modifies this
      ensures View() == OnKeyDown(old(View()), key)
    {
      if key == "Escape" {
        Close();
      }
    }

    method ClickLightbox(targetIsLightbox: bool)
      modifies this
      ensures View() == OnLightboxClick(old(View()), targetIsLightbox)
    {
      if targetIsLightbox {
        Close();
      }
    }
  }
}
