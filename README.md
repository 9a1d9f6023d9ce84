# Interactive behaviour of the marketing site's page script

This project models, in Dafny, the event handlers of the site's single browser
script: the mobile navigation toggle, the header's `scrolled` flag, the stat
counter animation and its one-shot start, the one-shot section reveal, the
in-page anchor intercept, the FAQ accordion, the exit-intent popup gate and the
sticky mobile contact bar.

The DOM is abstracted to plain state. Each class flag or attribute the script
touches (`active`, `scrolled`, `in`, `aria-expanded`), each module-level
variable (`statsAnimated`, `exitIntentShown`, `timeOnSite`), the session-storage
key `exitIntentShown` and the presence of the injected popup and contact bar is
a field of the class `Site.Page`. Each event listener is a method of it. What
the browser hands a listener is a parameter of that method: the scroll offset,
the pointer's `clientY`, `Date.now()`, whether the media query matches, the
IntersectionObserver entries, whether an anchor's target element exists and
where a click lands. `Page.Valid()` gathers the invariants every handler keeps:

- the toggle's `aria-expanded` mirrors the menu's state;
- at most one FAQ item is open, and each question's `aria-expanded` mirrors its item;
- a `.reveal` element is observed exactly until it is marked `in`;
- the stats animation has started at most once;
- the popup has been shown at most once on the page, and a showing is recorded in the session;
- no contact bar exists when the viewport was 768px or wider at start-up.

Modules:

- `Js` covers the JavaScript built-ins the script relies on: `String(bool)`, attribute truthiness and `String.prototype.includes`.
- `Counter` models `animateCounter`. Its interval callback is run tick by tick until it clears itself, with `current` in exact `real` arithmetic.
- `Accordion` gives the accordion rule as a function on the sequence of item states.
- `ExitIntent` holds the popup's trigger condition as a pure predicate.
- `Site` holds the `Page` class and its handlers.

Two behaviours of the script are easy to misread:

- Dismissing the popup does not write the session flag. The flag is written when the popup is shown (script.js:189, 213-220).
- A click on an open FAQ item leaves no item open. So at most one item is open, not exactly one (script.js:160-171).

## Model

| member | source | states |
|---|---|---|
| `Site.Page.constructor` | script.js:5-239 | Start-up state, gathered from the menu (lines 5-8), the header (35), the stats (80-81, 95-99), the reveal observer (114-116), the exit-intent variables (176-178), the session read (186) and the contact-bar gate (239): flags unset, `timeOnSite` 0, every reveal element observed and unmarked, the contact bar enabled iff `innerWidth < 768`, the session flag as found in storage; all invariants hold |
| `Site.Page.ClickToggle` | script.js:9-13 | The menu's `active` flips and `aria-expanded` becomes the text of the new state |
| `Site.ToggleTwice` | script.js:9-13 | Two toggle clicks restore both the menu flag and `aria-expanded` |
| `Site.Page.ClickNavLink` | script.js:16-21 | A nav-link click leaves the menu closed with `aria-expanded` "false", whatever the prior state |
| `Site.Page.MediaQueryChange` | script.js:24-31 | When the `(min-width: 860px)` query matches the menu ends closed with "false"; otherwise nothing changes |
| `Site.Page.ScrollHeader` | script.js:38-48 | After a scroll the header is `scrolled` iff the offset is greater than 50 |
| `Counter.AnimateCounter` | script.js:63-77 | The timer stops on the first tick where `current` reaches the target, and that tick shows exactly the target. Earlier ticks show `floor(current)`. The shown values never decrease for a target of 0 or more. There are 125 ticks at 2000 ms for a positive target |
| `Counter.Shown` | script.js:70-75 | The number a tick writes: the target once `current` reaches it, else `floor(current)`. For a target of 0 or more it lies between 0 and the target |
| `Counter.TickCount` | script.js:65-72 | The number of ticks the timer runs: at least one, and for a positive target the `n` with `16*(n-1) < duration <= 16*n` |
| `Counter.TickCountIsFirstReached` | script.js:65-72 | `current` reaches the target on tick `TickCount`, and on no earlier tick. That is one tick for a target of 0 or less, else `ceil(duration/16)` |
| `Counter.ReachedIff` | script.js:65-70 | `k * target/(duration/16) >= target` holds iff `16*k*target >= target*duration` |
| `Counter.ShownNonDecreasing` | script.js:68-75 | For a non-negative target, the number shown on a tick is at most the one shown on any later tick |
| `Site.Page.StatsIntersect` | script.js:83-93 | The counters start iff the page had not animated and some entry intersects. Each started counter ends on its target. The launch count never exceeds one, however many entries or batches arrive |
| `Site.Page.RevealIntersect` | script.js:102-108 | Exactly the elements with an intersecting entry get `in` and are unobserved. None of them was marked before, so no element is marked twice or unmarked |
| `Site.Page.ClickAnchor` | script.js:119-145 | The default is prevented iff the href is not exactly "#" and `onclick` is absent or empty. A skipped click or a missing target changes no state. A found target leaves the menu closed with "false" |
| `Site.Page.ClickQuestion` | script.js:155-173 | The item states become `Accordion.AfterClick` of the old ones, and every question's `aria-expanded` mirrors its item |
| `Accordion.AfterClick` | script.js:160-171 | The click keeps the number of items |
| `Accordion.AfterClickItems` | script.js:160-171 | The clicked item is toggled, every other item is closed, and at most one item is open |
| `Accordion.AfterClickOpenCount` | script.js:155-173 | Clicking an open item leaves no item open. Clicking a closed item leaves exactly one open |
| `Accordion.OpenCountAtMostOne` | script.js:155-173 | "At most one item is open" holds iff the count of open items is at most 1 |
| `Site.Page.DwellTimerFires` | script.js:180 | The start-up timeout records the current time as the dwell timestamp |
| `ExitIntent.ShouldShow` | script.js:184-186 | The popup's gate. It holds only with a set dwell timestamp more than 5000 ms old and a path with no occurrence of "contact" |
| `Site.Page.MouseLeave` | script.js:182-192 | The popup is shown iff `ExitIntent.ShouldShow` holds: `clientY < 10`, not shown on this page, a nonzero timestamp more than 5000 ms old, no "contact" in the path, no session flag. Showing sets the page flag and the session flag. A page never shows it twice |
| `Site.LeaveTwice` | script.js:182-192 | Of two leave events on one page at most one shows the popup |
| `Js.Includes` | script.js:185 | `includes` is true iff the pattern occurs at some index of the path |
| `ExitIntent.ContactPageExcluded` | script.js:185-186 | On any path of the form `before + "contact" + after` the popup is never shown |
| `ExitIntent.DwellFromStartUp` | script.js:177-184 | With the timestamp taken 100 ms after start-up, the popup needs more than 5100 ms since start-up |
| `Site.Page.ClickOverlay` | script.js:213-217 | A click on the backdrop itself removes the overlay. A click on the modal keeps it. The session flag is untouched |
| `Site.Page.ClickCloseButton` | script.js:218-220 | The close button removes the overlay; the session flag is untouched |
| `Site.Page.ScrollStickyBar` | script.js:239-250 | With a start-up width under 768, the bar is present after a scroll iff the offset exceeds 600. It is appended only when absent and removed only when present. With a wider start-up width it is never present |

## Left out

- The `loaded` body class and the unread `lastScroll` variable: they carry no behaviour beyond writing presentational state.
- The year stamp (script.js:2) is left out except as a precondition of everything else. It writes `#year` without a null check. On a page without `#year` the script throws there and installs none of the listeners modelled here.
- The parallax transform on `mousemove`: floating-point presentation with no state.
- The markup of the popup and the contact bar (headings, links, phone number): both elements are modelled only as present or absent.
- Smooth-scroll geometry (`getBoundingClientRect`, `scrollTo`, the 80px header allowance): only the intercept and menu-closing decision is modelled.
- The browser mechanisms are given as method inputs: IntersectionObserver thresholds and `rootMargin`, `matchMedia`, `setInterval` and `setTimeout` scheduling, `Date.now()`, and session-storage persistence.
- `document.querySelector(href)` throwing on an invalid selector is folded into "target not found". Both leave the state unchanged after the default is prevented.
- Pages lacking `#year`, `#mobileToggle`, `#nav` or a `header` element are not modelled. Without `#year` no listener is installed. Without `#mobileToggle` or `#nav` the menu listeners are not installed and the anchor handler can throw on an intercepted click whose target exists. Without `header` the first scroll listener throws on every scroll. The constructor assumes the markup starts with the menu and every FAQ item closed, and every `aria-expanded` "false". The page markup is not part of this model.
- Each FAQ question is assumed to have its own parent item.
- `Counter.AnimateCounter`: floating-point accumulation and `parseInt` yielding `NaN` are not modelled. `current` is an exact `real`, and a target is an integer. The exact sums change the stopping tick for some targets. In IEEE doubles, 125 additions of 100/125 give 99.99999999999977. So for a target of 100 (also 9, 11, 30, 50, ...) the browser's timer stops on tick 126, and tick 125 shows the target minus 1. The 125-tick result and `Counter.TickCount` hold for exact arithmetic only. The last value shown is still exactly the target, and the values still never decrease.
- `Counter.AnimateCounter`: durations under 16 ms are excluded. The only caller passes 2000. With a shorter duration and a negative target the source's timer would never stop.
- `Site.Page.StatsIntersect`: each counter's timer is run to completion inside the observer callback. In the browser its ticks interleave with other events, but they touch no other state.
- `Site.Page.ClickAnchor`: after the click `aria-expanded` is "false" only given the mirror invariant, which `Valid()` carries. The handler itself writes it only when the menu was open.
