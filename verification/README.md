# ngnlab site behaviour, modelled in Dafny

The website's script `js/script.js` is mostly browser glue. Inside its event
handlers it holds a few small deterministic rules. This project models those
rules as pure functions and step functions over immutable state. The page's
elements are replaced by plain values, and the properties the site relies on
are proved:

- **Email** and **Text**: the contact form's e-mail pattern
  `^[^\s@]+@[^\s@]+\.[^\s@]+$`, stated as an explicit predicate `IsEmail`. A
  one-pass scanner, `TestEmail`, is proved equivalent to it. Also modelled:
  JavaScript's whitespace class and `trim()`, which share the predicate `IsSpace`.
- **ContactForm**: the submit handler. It marks every blank field and every
  e-mail field that fails the pattern. Then it either resets the form and shows a
  success notice, or it shows an error notice.
- **ItemFilter**: the filter buttons. A click makes that button the only active
  one and shows or hides the items carrying `data-type` or `data-category`.
- **NewsBoard**: the news board, a single-open accordion. Its state is the set of
  ids that carry the `open` class.
- **HeroSlider**: the hero slider, a cursor over `N` slides that advances modulo
  `N` on each timer tick.
- **MobileMenu**: the mobile menu, two `active` marks driven by button clicks
  and link clicks.
- **PhotoHover**: the member-photo hover swap, an image source driven by
  pointer-enter and pointer-leave events.

There are no timers, DOM or I/O here. Each timer tick, click or pointer event is
one application of a step function. Sequences of events are folds of that step
(`Run`, `Clicks`, `Ticks`).

## Model

| member | source | states |
|---|---|---|
| Text.TrimStart | js/script.js:138 | the result is a suffix of the input, everything cut is whitespace, and the result does not start with whitespace |
| Text.TrimEnd | js/script.js:138 | the result is a prefix of the input, everything cut is whitespace, and the result does not end with whitespace |
| Text.Trim | js/script.js:138 | `trim()` returns a slice of the value, with whitespace-only pieces cut from both ends and no whitespace left at either end |
| Text.TrimEmptyIffAllSpace | js/script.js:138 | a value is blank after trimming iff every character is whitespace |
| Email.TestEmail | js/script.js:147-148 | the scan accepts a string iff it splits as `L@A.B` with `L`, `A`, `B` non-empty and free of whitespace and `@` |
| Email.SplitFacts | js/script.js:147 | an accepted string has no whitespace, its `@` is the only one and not the first character, and the dot lies strictly inside the rest |
| Email.SplitOfShape | js/script.js:147 | conversely, a whitespace-free string with one `@` at a position `> 0` and a dot strictly inside the rest is accepted there |
| Email.NoSplitThrough | js/script.js:147 | a whitespace character anywhere rejects the string, and an `@` can only be the split point, never at index 0 |
| Email.EmailHasOneAt | js/script.js:147 | every accepted string contains exactly one `@` |
| Email.NotAnEmailRejected | js/script.js:147-148 | "not-an-email" is rejected |
| Email.SampleAddressesAccepted | js/script.js:147 | "user@example.com" is accepted, and so is "a@b.c.d", whose part after `@` has several dots |
| Email.PaddedEmailRejected | js/script.js:138-148 | an accepted address with any whitespace character added before or after is rejected by the pattern, yet is not blank in either case |
| ContactForm.CheckField | js/script.js:137-152 | a field ends marked invalid iff it is blank after trimming, or it is an e-mail field whose untrimmed value fails the pattern |
| ContactForm.Submit | js/script.js:134-161 | the form is accepted iff no field is rejected; every field's mark equals its rejection; on rejection no value changes; on acceptance every value returns to its default |
| ContactForm.Reset | js/script.js:158 | `reset()` restores each field's default value and keeps its type, default and mark |
| ContactForm.NotAnEmailFieldRefused | js/script.js:146-151 | an e-mail field holding "not-an-email" is rejected although it is not blank |
| ContactForm.PaddedAddressMarked | js/script.js:138-151 | an e-mail field holding a valid address preceded or followed by a no-break space (U+00A0) is rejected, although it is not blank after trimming |
| ItemFilter.Key | js/script.js:196-198 | an item's key is its `data-type` when present and non-empty, otherwise its `data-category`, possibly absent |
| ItemFilter.DeactivateAll | js/script.js:189 | every button loses its `active` mark and keeps its key |
| ItemFilter.ApplyFilter | js/script.js:195-206 | a filterable item is shown iff the key is "all" or equals the item's key, and is hidden otherwise; other nodes are untouched; attributes never change |
| ItemFilter.Click | js/script.js:186-207 | after a click on button `k` exactly that button is active; filterable items are shown when selected by its key and hidden otherwise; no item's attributes change; other nodes are untouched |
| ItemFilter.LastClickWins | js/script.js:189-205 | a click erases every effect of the click before it: repeating a click changes nothing |
| ItemFilter.RefilterOverwrites | js/script.js:195-206 | filtering by `g` after `f` gives the same items as filtering by `g` alone |
| ItemFilter.ClicksLastWins | js/script.js:186-207 | after any non-empty series of clicks the page equals the last click applied to the initial page |
| ItemFilter.AllShowsEverything | js/script.js:200-201 | the key "all" shows every filterable item |
| ItemFilter.KeyShowsExactlyMatching | js/script.js:200-205 | any other key shows exactly the filterable items whose key equals it and hides the rest |
| NewsBoard.RowClick | js/script.js:264-271 | a missing target changes nothing; otherwise at most the target panel stays open, the target toggles unless it is an open non-panel element, and no non-panel element other than the target changes |
| NewsBoard.PanelClick | js/script.js:268-270 | a click on a panel's row leaves open panels `{t}` if `t` was closed, and none if `t` was open |
| NewsBoard.RunKeepsAtMostOneOpen | js/script.js:264-271 | any sequence of row clicks keeps at most one panel open |
| NewsBoard.ClickLeavesAtMostOneOpen | js/script.js:265-270 | a click on an existing target leaves at most one panel open, however many were open before |
| NewsBoard.ClickTwiceClosesAll | js/script.js:268-270 | clicking the same panel's row twice, starting closed, leaves no panel open |
| HeroSlider.Start | js/script.js:230-234 | with no slides nothing starts; otherwise the cursor is 0, the first slide is active, and other marks stay |
| HeroSlider.Tick | js/script.js:236-240 | a tick moves the cursor to `(i + 1) mod N`, marks that slide active, unmarks the previous one, and touches no other slide |
| HeroSlider.TicksFromStart | js/script.js:233-239 | after `k` ticks the cursor is `k mod N`; a slide is active iff it is the cursor's slide, or lies beyond `k` and was marked in the markup |
| HeroSlider.TickStep | js/script.js:237-239 | one tick carries the description of the slides after `k` ticks over to `k + 1` ticks |
| HeroSlider.CursorAfterTicks | js/script.js:231-239 | with `N > 0` slides, none initially active, after `k` ticks the cursor is `k mod N` and exactly that slide is active |
| HeroSlider.SettlesToOneActive | js/script.js:233-239 | whatever the markup marked, after at least `N - 1` ticks exactly the cursor's slide is active |
| MobileMenu.Step | js/script.js:46-58 | without a button nothing happens; with both elements a link click clears both marks whatever they were; a button click flips each mark that exists; without a panel a link click changes nothing |
| MobileMenu.RunKeepsSynced | js/script.js:47-58 | button and panel marks that start equal stay equal under any events |
| MobileMenu.ToggleTwiceRestores | js/script.js:47-50 | two button clicks restore any state |
| MobileMenu.EndsWithLinkClosed | js/script.js:55-58 | when both elements exist, any events ending with a link click leave both marks inactive, whatever the marks were before |
| PhotoHover.Setup | js/script.js:248-249 | set-up shows the current source and remembers it as the original, next to the `data-hover` source |
| PhotoHover.Step | js/script.js:251-256 | entering shows the hover source when it is non-empty and otherwise changes nothing; leaving shows the original |
| PhotoHover.RunFrom | js/script.js:248-256 | events keep the captured original and hover source, show only one of them, and end on the original after a leave |
| PhotoHover.RunShowsOriginalOrHover | js/script.js:248-256 | from set-up on, the image shows only the original source or the hover source |
| PhotoHover.LeaveRestoresOriginal | js/script.js:248-256 | after any events ending in a leave, the source is the one captured at set-up, however many enters came before |

## Left out

- Header and footer loading (js/script.js:2-24): network fetches and markup injection are I/O.
- `setFavicon` (js/script.js:27-39): creating and looking up elements has nothing to state beyond idempotent attribute writes.
- The header scroll class (js/script.js:68-74): one comparison on a scroll offset that the browser supplies.
- Reveal-on-scroll (js/script.js:78-97): it depends on viewport geometry and the browser's intersection callbacks.
- The counter animation (js/script.js:100-125): floating-point accumulation on a 16 ms timer, with `parseInt` and NaN behaviour.
- `showAlert` and the opacity fade (js/script.js:166-180, 276-279): element creation and timer sequencing. The form model records only which notice, success or error, is shown.
- Smooth-scroll links (js/script.js:211-226): `querySelector` and `scrollIntoView` are browser calls.
- Visual effects are modelled only as abstract flags: border colours as the field's `invalid` mark, `display` as `Block`/`Hidden`, and the fade-in animation not at all.
- ContactForm.Reset: only values are restored. The checked state of checkboxes and the form's non-`input` controls are not modelled.
- NewsBoard.RowClick: the model assumes ids are unique. A row without `data-target` is modelled as an ordinary id lookup that fails, which ignores that the browser looks up the id "null". Every panel is assumed to carry a non-empty id: a `.board-detail` without an id, which a click also closes, has no place in the model, and the model does not make an empty target always fail to resolve as `getElementById("")` does.
- ContactForm.CheckField: a field's value is taken as given. The browser's sanitising of e-mail input values, which strips line breaks and leading or trailing ASCII whitespace, is not modelled. So an ASCII-padded address reaches the pattern only in the model, and a real e-mail field is padded only by other whitespace such as U+00A0.
- PhotoHover.Setup: an image without a `src` attribute, which the browser restores as the string "null", is not modelled.
- MobileMenu.Step: a missing panel also makes the menu's set-up throw, so the header scroll handler is never installed. That effect lies outside this model.
