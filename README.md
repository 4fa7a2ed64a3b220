# Portfolio site widgets, modelled in Dafny

The site's JavaScript has two files:

- `js/main.js` has the filter and search groups, the tabs, the collapsible blocks, the "Leer más" read-more lists, the sidebar and the scroll-spy link highlighting.
- `js/components/img_gallery.js` has a horizontally scrolling gallery with previous and next buttons, and a lightbox for a clicked image.

Each widget reacts to an event with a short, synchronous handler. The model turns each of these handlers into Dafny.

The DOM is plain data. Elements the handlers touch are records: filter items, filter buttons, tab controls, tab panels, navigation links, read-more item displays, and the lightbox view. Each widget is a `class` whose fields are the DOM properties its handlers write. Each handler is a `method` with a `modifies` clause. Where the source loops over elements, so does the method, with loop invariants. Every method is proved against a pure step function over the widget's view, and the properties the site relies on are lemmas about those functions.

Modules, one per file:

- `Dom` (`dom.dfy`): `Option`, and `String(bool)` for ARIA attributes.
- `Text` (`text.dfy`): `String.prototype.includes`, `split(" ")`, `trim()`, and `normalizeText`. `normalizeText` is lower-casing, NFD decomposition of accented Latin-1 letters, and removal of U+0300–U+036F.
- `Filters` (`filters.dfy`): `initFilters` and `applyFilters`.
- `Tabs` (`tabs.dfy`): `initTabs` and `showTab`. A section's filter group is re-applied through `Filters.FilterGroup.ApplyFilters`, which is what the `filters:apply` event triggers.
- `Collapsibles` (`collapsibles.dfy`): `initCollapsibles` and `updateState`.
- `Navigation` (`navigation.dfy`): the sidebar handlers, and the scroll-spy's `activateLink`. Whether `(max-width: 959px)` matches is a boolean parameter.
- `ReadMore` (`readmore.dfy`): `initReadMoreLists` and its button.
- `Gallery` (`gallery.dfy`):
  - scroll navigation: `getGap`, `getStep`, `clampScroll`, `updateNavState` and `scrollByStep`;
  - the lightbox: `openLightbox` and `closeLightbox`. Callbacks from `requestAnimationFrame` and `setTimeout` are pending counters, and each firing is an explicit step.

Absent data attributes are the empty string wherever the source falls back with `||`, which treats an empty attribute like an absent one. `data-tab` is an `Option`, because a missing `data-tab` is `undefined` and the source compares and prints it as such.

## Model

| member | source | states |
|---|---|---|
| Dom.BoolText | js/main.js:24 | `String(bool)` is "true" or "false" |
| Dom.IsTrueText | js/main.js:267 | reading `aria-expanded` back: the state is open exactly when the attribute is "true" |
| Dom.BoolTextRoundTrip | js/main.js:267 | reading an ARIA attribute back as `=== 'true'` recovers the boolean written with `String(b)` |
| Text.ContainsIff | js/main.js:124 | `includes` holds exactly when the query occurs at some index of the text |
| Text.Contains | js/main.js:124 | `includes`: the query is a prefix of the text or of one of its suffixes (tied to occurrence by `ContainsIff`) |
| Text.Split | js/main.js:123 | `split` always yields at least one piece |
| Text.SplitJoin | js/main.js:123 | joining the pieces of `split(" ")` with " " gives back the string, and no piece contains a space |
| Text.SplitWithoutSeparator | js/main.js:123 | a string without the separator splits into itself alone |
| Text.TrimStart | js/main.js:114 | the result is a suffix of the input; everything dropped is white space or a line terminator; the result does not start with one |
| Text.TrimEnd | js/main.js:114 | the result is a prefix of the input; everything dropped is white space; the result does not end with it |
| Text.Trim | js/main.js:114 | `trim()` strips both ends (its properties are those of `TrimStart`, `TrimEnd` and `TrimIdempotent`) |
| Text.TrimIdempotent | js/main.js:114 | `trim()` leaves no white space at either end and is idempotent |
| Text.AccentOf | js/main.js:90 | NFD of an accented lower-case Latin-1 letter is a base letter a–z and a mark in U+0300–U+036F; other characters are kept |
| Text.Lower | js/main.js:89 | `toLowerCase` applied character by character |
| Text.DecomposeAll | js/main.js:90 | NFD applied character by character |
| Text.StripMarks | js/main.js:91 | the result is no longer than the input, keeps only the input's characters, contains no U+0300–U+036F mark, and is the input itself when the input has none |
| Text.StripMarksChar | js/main.js:91 | on one character, a combining mark is dropped and anything else is kept |
| Text.StripMarksKeepsOrder | js/main.js:91 | a non-mark character between two parts stays between their stripped forms |
| Text.Normalize | js/main.js:86-92 | `normalizeText`: lower-case, decompose, drop U+0300–U+036F (its properties are the `Normalize*` lemmas) |
| Text.LowerFixesLowered | js/main.js:89 | lower-casing yields only characters that lower-casing fixes |
| Text.DecomposePieces | js/main.js:90 | decomposing a lower-case character yields lower-case characters, each a mark or decomposing to itself |
| Text.DecomposeAllPieces | js/main.js:90 | the same for a whole lower-cased string |
| Text.NormalizeFolded | js/main.js:86-92 | every character of a normalized string is lower-case, undecomposable and no combining mark |
| Text.NormalizeFixesFolded | js/main.js:86-92 | each stage of `normalizeText` leaves such a string unchanged |
| Text.NormalizeIdempotent | js/main.js:86-92 | normalizing twice is normalizing once |
| Text.LowerConcat | js/main.js:89 | lower-casing works character by character |
| Text.DecomposeAllConcat | js/main.js:90 | decomposition works character by character |
| Text.StripMarksConcat | js/main.js:91 | mark removal works character by character |
| Text.NormalizeConcat | js/main.js:86-92 | `normalizeText` of a concatenation is the concatenation of the normalized parts |
| Text.NormalizeEAcute | js/main.js:86-92 | "é" normalizes to "e" |
| Text.NormalizeCombiningAcute | js/main.js:91 | a lone combining acute accent normalizes to nothing |
| Text.NormalizeLowerAscii | js/main.js:86-92 | lower-case ASCII letters are unchanged |
| Text.PrecomposedAccentIgnored | js/main.js:86-92 | a precomposed e-acute anywhere in a string normalizes like a plain "e" |
| Text.CombiningAccentIgnored | js/main.js:86-92 | an "e" with a combining acute anywhere in a string normalizes like a plain "e" |
| Text.AccentsIgnored | js/main.js:86-92 | anywhere in a string, "é", "e" and "e" plus a combining acute normalize alike |
| Text.CaseIgnored | js/main.js:86-92 | anywhere in a string, an upper-case ASCII letter normalizes like its lower-case form |
| Filters.QueryMatchIsOccurrence | js/main.js:118-124 | an item matches a query exactly when the query occurs in its normalized keywords (or, failing those, its text) |
| Filters.CategoryOf | js/main.js:117 | an item's categories, "all" when `data-category` is absent or empty |
| Filters.KeywordsOf | js/main.js:118-120 | the normalized `data-keywords`, else the normalized text content |
| Filters.MatchesCategory | js/main.js:122-123 | the active filter is "all" or one of the space-separated category tokens |
| Filters.MatchesQuery | js/main.js:124 | the query is empty or occurs in the normalized keywords |
| Filters.Visible | js/main.js:122-126 | an item is shown exactly when both tests pass |
| Filters.Refiltered | js/main.js:126 | `applyFilters` rewrites only the `hidden` flag, to the negation of `Visible` |
| Filters.SearchQuery | js/main.js:114 | the query is the normalized, trimmed field value, "" without a search field |
| Filters.FilterOf | js/main.js:132 | a button selects its `data-filter`, "all" when absent or empty |
| Filters.SingleTokenCategory | js/main.js:117-123 | an item with a single category token matches exactly "all" and that token |
| Filters.UncategorisedOnlyUnderAll | js/main.js:117-123 | an item without `data-category` matches only the filter "all" |
| Filters.MatchedTokenHasNoSpace | js/main.js:122-123 | a filter other than "all" matches only a whole space-separated token of the categories |
| Filters.AccentInsensitiveSearch | js/main.js:118-124 | writing "e" for an "é" in an item's keywords never changes whether a query matches it |
| Filters.RefilterIdempotent | js/main.js:126 | re-applying the filters with the same filter and query changes nothing |
| Filters.FilterGroup.constructor | js/main.js:111-144 | a new group has filter "all" and has applied its filters once |
| Filters.FilterGroup.ApplyFilters | js/main.js:113-128 | every item is hidden exactly when it fails the category or the query test; nothing else changes |
| Filters.FilterGroup.ClickButton | js/main.js:130-137 | the button's filter (else "all") becomes active; that button alone is active; items are re-filtered |
| Filters.FilterGroup.Input | js/main.js:140-141 | the query becomes the trimmed, normalized field value; items are re-filtered under the same filter |
| Tabs.PanelIdInjective | js/main.js:169 | different tab names name different panels |
| Tabs.PanelIdFor | js/main.js:169 | the panel id `tab-<target>`, with an absent target printed as "undefined" |
| Tabs.SelectControl | js/main.js:161-166 | a control after `showTab`: active, `aria-selected` and tabindex follow whether its `data-tab` is the target |
| Tabs.ShowPanel | js/main.js:168-172 | a panel after `showTab`: shown and active exactly when its id is `tab-<target>` |
| Tabs.MissingTabNamesUndefined | js/main.js:162-169 | a control without `data-tab` selects the panel `tab-undefined` |
| Tabs.SelectionAgrees | js/main.js:161-172 | a panel is shown exactly when it is active; a control is active exactly when `aria-selected` is "true" and exactly when its tabindex is "0" (else "-1") |
| Tabs.SwitchingHidesPrevious | js/main.js:168-172 | switching to another tab hides every panel the previous tab showed |
| Tabs.AtMostOnePanelShown | js/main.js:168-172 | with distinct panel ids, at most one panel is shown |
| Tabs.TabGroup.constructor | js/main.js:151-158 | a tab group holds its controls, its panels and the section's filter group, if any, unchanged |
| Tabs.TabGroup.ShowTab | js/main.js:160-177 | every control is selected exactly when its `data-tab` is the target; only the panel `tab-<target>` is shown; the section's filter group is re-applied without a change of filter or query |
| Tabs.TabGroup.ClickControl | js/main.js:179-183 | a click selects the clicked control's tab, and that control is active with tabindex "0"; the section's filter group is re-applied without a change of filter or query |
| Collapsibles.UpdateState | js/main.js:197-201 | the open class is the new state; `aria-expanded` reads back as that state; the label is "Ocultar"/"Mostrar" when present and untouched otherwise |
| Collapsibles.LabelFor | js/main.js:200 | the label reads "Ocultar" when open and "Mostrar" when closed |
| Collapsibles.Consistent | js/main.js:197-201 | `aria-expanded`, and the label when present, agree with the open class |
| Collapsibles.OnClick | js/main.js:203-206 | a click sets the state to the negation of the open class |
| Collapsibles.OnKeyDown | js/main.js:208-214 | Enter and Space set the state to the negation of the open class and prevent the default; other keys do nothing |
| Collapsibles.KeyboardMatchesClick | js/main.js:203-214 | Enter and Space act exactly as a click and prevent the default; other keys change nothing |
| Collapsibles.ClickTwiceRestores | js/main.js:203-206 | a click flips the open class and leaves the block consistent; two clicks restore a consistent block |
| Collapsibles.Collapsible.constructor | js/main.js:195 | initialisation makes the summary focusable |
| Collapsibles.Collapsible.Click | js/main.js:203-206 | a click performs the click step and keeps the tabindex |
| Collapsibles.Collapsible.KeyDown | js/main.js:208-214 | a key performs the keydown step and reports whether the default was prevented |
| Navigation.Consistent | js/main.js:21-25 | `aria-expanded` is `String` of the open class |
| Navigation.Closed | js/main.js:16-19 | `closeSidebar` leaves the sidebar closed with `aria-expanded="false"` |
| Navigation.Toggled | js/main.js:21-25 | the toggle flips `is-open` and sets `aria-expanded` to the new state |
| Navigation.AfterLinkClick | js/main.js:27-33 | a link click closes the sidebar when narrow and leaves it alone otherwise |
| Navigation.AfterResize | js/main.js:35-40 | a resize closes the sidebar when wide and leaves it alone otherwise |
| Navigation.NarrowAndWideRules | js/main.js:27-40 | a link click closes the sidebar only on a narrow viewport; a resize to a wide one always closes it |
| Navigation.HandlersKeepConsistent | js/main.js:16-40 | every handler keeps `aria-expanded` in step with `is-open` |
| Navigation.ToggleTwiceRestores | js/main.js:21-25 | two toggles restore a consistent sidebar |
| Navigation.Sidebar.constructor | js/main.js:8-14 | the sidebar starts with the markup's open class and `aria-expanded` |
| Navigation.Sidebar.CloseSidebar | js/main.js:16-19 | performs the close step |
| Navigation.Sidebar.ClickToggle | js/main.js:21-25 | performs the toggle step |
| Navigation.Sidebar.ClickLink | js/main.js:27-33 | performs the link-click step |
| Navigation.Sidebar.Resize | js/main.js:35-40 | performs the resize step |
| Navigation.Marked | js/main.js:57-65 | a link after `activateLink(id)`: active, with `aria-current="true"`, exactly when its `href` is `#id` |
| Navigation.MarkedIff | js/main.js:57-65 | a link is active exactly when its `href` is `#id`, with `aria-current="true"` when active and removed otherwise |
| Navigation.DistinctSectionsDistinctLinks | js/main.js:56-67 | two different sections never activate the same link |
| Navigation.ScrollSpy.constructor | js/main.js:49-54 | the scroll-spy holds the header links and the sidebar links |
| Navigation.ScrollSpy.ActivateLink | js/main.js:56-67 | every header and sidebar link is marked against `#id`, in one pass over both lists |
| ReadMore.IsHidden | js/main.js:250 | an item is hidden by an inline `display: none` |
| ReadMore.Collapsed | js/main.js:249-251 | every item at index `>= showCount` gets `display: none`; the others keep theirs |
| ReadMore.Expanded | js/main.js:277 | every item's inline display is cleared |
| ReadMore.Init | js/main.js:243-264 | initialisation: a short list is left alone; a long one is collapsed and gets a "Leer más" button |
| ReadMore.OnClick | js/main.js:266-281 | the click handler, choosing collapse or expand from `aria-expanded` |
| ReadMore.Settled | js/main.js:266-281 | the two states a clicked button leaves: collapsed with exactly the tail hidden, or expanded |
| ReadMore.InitHidesTail | js/main.js:243-264 | a list of at most `showCount` items is unchanged and gets no button; otherwise exactly the items at index `>= showCount` are hidden and one button "Leer más" with `aria-expanded="false"` is added |
| ReadMore.ClickEffects | js/main.js:266-281 | expanding shows every item and relabels to "Leer menos"/"true"; collapsing hides exactly the items at index `>= showCount` (and those already hidden) and relabels to "Leer más"/"false" |
| ReadMore.TwoClicksRestore | js/main.js:266-281 | an expanding click settles the list; clicks keep a settled list settled; two clicks restore it exactly |
| ReadMore.TwoClicksRestoreVisibility | js/main.js:243-281 | after initialisation, two clicks restore the initial visibility and button |
| ReadMore.FiveItemsThresholdThree | js/main.js:241-283 | five items with threshold 3: items 3-4 hidden, all shown after a click, the initial state after another |
| ReadMore.ReadMoreList.constructor | js/main.js:243-264 | initialisation performs the initial step |
| ReadMore.ReadMoreList.HideTail | js/main.js:249-251 | the loop hides every item at index `>= showCount` and keeps the others |
| ReadMore.ReadMoreList.ShowAll | js/main.js:277 | the loop clears every item's display |
| ReadMore.ReadMoreList.Click | js/main.js:266-281 | a click performs the click step read from `aria-expanded` |
| Gallery.MaxScroll | js/components/img_gallery.js:26 | the scroll range is non-negative and covers `scrollWidth - clientWidth` |
| Gallery.Clamp | js/components/img_gallery.js:24-28 | the result lies in `[0, maxScroll]`, equals an in-range target, and is the nearer end otherwise |
| Gallery.ClampIdempotentMonotone | js/components/img_gallery.js:24-28 | clamping twice is clamping once, and clamping keeps the order of targets |
| Gallery.ClampScroll | js/components/img_gallery.js:24-28 | `clampScroll`: 0 without a track, the clamped target with one |
| Gallery.FirstParsed | js/components/img_gallery.js:9-14 | the result is the first candidate that parses, 0 when none does |
| Gallery.GapFallbacks | js/components/img_gallery.js:6-15 | the gap is `column-gap`, else `gap`, else 0 |
| Gallery.GapOf | js/components/img_gallery.js:6-15 | `getGap`: 0 without a track, else the first parsed of `column-gap` and `gap` |
| Gallery.StepFor | js/components/img_gallery.js:17-22 | `getStep`: 300, else `max(0.6 * clientWidth, 200)` without a card, else card width plus gap |
| Gallery.StepBounds | js/components/img_gallery.js:17-22 | the step is 300 without a track; without a card it is `max(0.6 * clientWidth, 200)`, so at least 200; with one it is the card's width plus the gap |
| Gallery.PrevDisabled | js/components/img_gallery.js:34 | the previous button is disabled within 4px of the start |
| Gallery.NextDisabled | js/components/img_gallery.js:32-35 | the next button is disabled within 4px of the end |
| Gallery.FittingTrackDisablesBoth | js/components/img_gallery.js:30-36 | a track whose content fits disables both buttons |
| Gallery.NeverBothDisabled | js/components/img_gallery.js:30-36 | with more than 8px to scroll the two buttons are never disabled together |
| Gallery.ScrollTarget | js/components/img_gallery.js:42 | the clamped position one step in the given direction |
| Gallery.StepDirection | js/components/img_gallery.js:38-48 | a step forward never moves back and moves at most one step (backward likewise); a step past an end stops there and disables that end's button |
| Gallery.PrevClicked | js/components/img_gallery.js:34-50 | a click on previous: none while the button is disabled or the step is 0, else one step back |
| Gallery.NextClicked | js/components/img_gallery.js:35-51 | a click on next: none while the button is disabled or the step is 0, else one step forward |
| Gallery.Forward | js/components/img_gallery.js:35-55 | the position after `n` clicks on next, each followed by the scroll listener |
| Gallery.DisabledNextStaysPut | js/components/img_gallery.js:35-51 | once next is disabled, further clicks leave the track where it is |
| Gallery.EnoughClicksDisableNext | js/components/img_gallery.js:30-55 | enough clicks on next bring the track within 4px of its end, where next is disabled |
| Gallery.StopsShortOfEnd | js/components/img_gallery.js:30-55 | with a 902px range and 300px steps, the track stops at 900, since next is disabled there |
| Gallery.GalleryNav.Synced | js/components/img_gallery.js:30-36 | the buttons' disabled state is the one `updateNavState` gives for the current position |
| Gallery.GalleryNav.constructor | js/components/img_gallery.js:53-54 | the buttons start as the markup has them; with a track their state is computed once |
| Gallery.GalleryNav.GetGap | js/components/img_gallery.js:6-15 | the loop returns the first parsed candidate |
| Gallery.GalleryNav.GetStep | js/components/img_gallery.js:17-22 | returns the step the step rules give |
| Gallery.GalleryNav.UpdateNavState | js/components/img_gallery.js:30-36 | previous is disabled exactly within 4px of the start and next exactly within 4px of the end; absent buttons are untouched |
| Gallery.GalleryNav.Scrolled | js/components/img_gallery.js:55 | the scroll listener brings the buttons' state up to date |
| Gallery.GalleryNav.ScrollByStep | js/components/img_gallery.js:38-48 | a zero step changes nothing; otherwise the track ends at the clamped position one step away |
| Gallery.GalleryNav.ClickPrev | js/components/img_gallery.js:34-50 | a disabled button takes no click; otherwise scrolls one step back; with the state current this is `PrevClicked` |
| Gallery.GalleryNav.ClickNext | js/components/img_gallery.js:35-51 | a disabled button takes no click; otherwise scrolls one step forward; with the state current this is `NextClicked` |
| Gallery.GalleryNav.Resize | js/components/img_gallery.js:56-63 | the new geometry, card width and gaps are taken, the position is kept in range, and the buttons' state is recomputed |
| Gallery.TitleOf | js/components/img_gallery.js:74 | the title is never empty; it is `data-title` when there is one, else `alt` when there is one, else "Imagen" |
| Gallery.Opened | js/components/img_gallery.js:72-81 | `openLightbox`: sets the image, its alt and caption to the title, shows the lightbox, locks the page and schedules a frame |
| Gallery.Closed | js/components/img_gallery.js:83-92 | `closeLightbox`: removes `is-open`, unlocks the page and schedules a timeout |
| Gallery.FrameFired | js/components/img_gallery.js:79 | the frame callback adds `is-open` |
| Gallery.TimerFired | js/components/img_gallery.js:87-91 | the timeout hides the lightbox unless it is open |
| Gallery.OnKeyDown | js/components/img_gallery.js:100-102 | Escape closes; other keys do nothing |
| Gallery.OnLightboxClick | js/components/img_gallery.js:95-99 | only a click on the backdrop itself closes |
| Gallery.OpenThenFrameShows | js/components/img_gallery.js:72-81 | opening shows the image with its title as `alt` and caption and locks page scrolling; its frame adds `is-open`; without image or caption elements nothing changes |
| Gallery.CloseThenTimerHides | js/components/img_gallery.js:83-92 | closing removes `is-open` and unlocks the page; the timeout then hides the lightbox |
| Gallery.ReopenAfterFrameStaysVisible | js/components/img_gallery.js:83-92 | reopening before the timeout keeps the lightbox shown once the new frame has run first |
| Gallery.CloseTriggers | js/components/img_gallery.js:94-102 | Escape and a click on the backdrop itself close the lightbox; other keys and clicks do nothing |
| Gallery.ReopenBeforeFrameStaysHidden | js/components/img_gallery.js:79-91 | if the old timeout runs before the new frame, a reopened lightbox ends hidden yet open, with the page locked |
| Gallery.CloseBeforeFrameStaysOpen | js/components/img_gallery.js:79-91 | closing before the opening frame leaves the lightbox shown and open, with the page unlocked |
| Gallery.OpenedCancelling | js/components/img_gallery.js:72-81 | the corrected open, which also cancels a pending hide |
| Gallery.ClosedCancelling | js/components/img_gallery.js:83-92 | the corrected close, which also cancels a pending open frame |
| Gallery.StepCancelling | js/components/img_gallery.js:72-102 | one event on the corrected lightbox; a callback that is not pending cannot fire |
| Gallery.RunCancelling | js/components/img_gallery.js:72-102 | a sequence of events on the corrected lightbox |
| Gallery.WantOpen | js/components/img_gallery.js:72-92 | whether the last effective call was an open |
| Gallery.Heading | js/components/img_gallery.js:72-92 | the corrected lightbox is open or about to open when wanted open, and hidden or about to hide otherwise |
| Gallery.CancellingKeepsHeading | js/components/img_gallery.js:72-92 | with cancelling open and close, every event keeps the lightbox heading for the last requested state |
| Gallery.CancellingSettles | js/components/img_gallery.js:72-92 | with cancelling open and close, once no callback is pending the lightbox is shown and open exactly when the last call opened it |
| Gallery.Lightbox.constructor | js/components/img_gallery.js:67-70 | the lightbox starts hidden and closed with nothing pending |
| Gallery.Lightbox.Open | js/components/img_gallery.js:72-81 | performs the open step and schedules one frame |
| Gallery.Lightbox.Close | js/components/img_gallery.js:83-92 | performs the close step and schedules one timeout |
| Gallery.Lightbox.RunFrame | js/components/img_gallery.js:79 | a pending frame adds `is-open` |
| Gallery.Lightbox.RunTimer | js/components/img_gallery.js:87-91 | a pending timeout hides the lightbox unless it is open |
| Gallery.Lightbox.KeyDown | js/components/img_gallery.js:100-102 | Escape closes |
| Gallery.Lightbox.ClickLightbox | js/components/img_gallery.js:95-99 | a click on the backdrop itself closes |

## Left out

- DOM querying, `addEventListener` wiring and `DOMContentLoaded`. Each widget is built from its elements' data; each listener is a method.
- The `filters:apply` `CustomEvent` is a direct call to `ApplyFilters`.
- Missing markup: a widget whose required elements are absent is never built. The exceptions are the gallery's track and buttons and the lightbox's image and caption, whose absence is modelled.
- `initScrollSpy`'s `IntersectionObserver` (root margin, threshold) is browser geometry. Only `activateLink` is modelled; which section intersects is its `id` argument.
- `matchMedia("(max-width: 959px)")` is a boolean parameter.
- `requestAnimationFrame` and `setTimeout` timing: pending callbacks are counters, and their order is the caller's choice of steps. The 200 ms delay itself is not modelled.
- Smooth scrolling: `scrollTo({behavior: 'smooth'})` and the direct `scrollLeft` fallback both set the final position. The scroll event that follows is a call to `Scrolled`.
- The browser keeping the position in range when the layout shrinks is modelled inside `Resize`, as clamping.
- The resize handler's `scroll-behavior` swap and its restoring frame are not modelled.
- `scrollIntoView` on collapse is not modelled (it changes the viewport, not the list).
- Unicode: `toLowerCase` covers A–Z and U+00C0–U+00DE except U+00D7. NFD covers the 27 accented lower-case Latin-1 letters. Every other character is left unchanged by both, where full Unicode would map more.
- Characters are code points, not UTF-16 units.
- `Number(...)` and `parseFloat` parsing: `showCount` is an already-parsed integer. The gap candidates are already parsed, with NaN as `None`. `getBoundingClientRect` and `getComputedStyle` values are inputs.
- A NaN `data-show` (for which `Number(...)` applies no fallback) is not modelled. Neither is a fractional one.
- `setCurrentYear` reads the clock.
- `initCarousel` is a thin forward to `scrollBy`.
- Tabs.TabGroup.ShowTab: the source promises nothing about an empty selection. If no panel's id is `tab-<target>`, every panel is hidden; the model allows that and proves only that at most one panel is shown.
- The lightbox caption comes from `data-title`, not from a `title` attribute.
- No tab panel at all is shown when no panel id matches.
- A `data-show` that does not parse gets no default: `Number(...)` yields NaN.
- Gallery.Lightbox: the class keeps the as-written behaviour of the source. The corrected behaviour, which cancels pending callbacks, is modelled by the `*Cancelling` functions.

## Findings

| source | as written | input that shows it | evidently intended | confidence | as-written member | corrected member |
|---|---|---|---|---|---|---|
| js/components/img_gallery.js:79-91 | the delayed hide of a close is not cancelled by a reopen; it re-checks `is-open`, which the reopen adds only one frame later | open, frame, close, open, then the old timeout before the new frame | the lightbox ends shown and open when it was last opened | medium, not executed | Gallery.ReopenBeforeFrameStaysHidden | Gallery.CancellingSettles |
| js/components/img_gallery.js:79-85 | a close does not cancel the opening frame, which then adds `is-open` after the close | open, close, frame, timeout (a close within one frame of opening) | the lightbox ends hidden and closed when it was last closed | low, not executed | Gallery.CloseBeforeFrameStaysOpen | Gallery.CancellingSettles |
