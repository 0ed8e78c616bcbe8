# Portfolio page script, modelled in Dafny

This project models the interactive logic of a static portfolio site's page
script (`Steven-Williams-Portfolio/js/main.js`). It covers four small state machines:

- **Typewriter.** The hero banner types a title one character per tick, pauses, and deletes it one
  character per tick. It then moves on to the next title, cyclically. Each tick produces the text to
  show and the delay before the next tick.
- **Active link.** On scroll, the current section is the last section, in document order, whose top is
  at or above the scroll position. Exactly the navigation links whose href is `#` + that id are marked
  active.
- **Navbar.** The bar's "scrolled" look is on exactly while the page is scrolled more than 50 pixels.
- **Mobile menu.** A hamburger click toggles the button's "active" look and the link list's "open"
  state together. A click on any navigation link clears both.

The DOM is reduced to plain values. Class membership is a boolean. Sections are `(id, offsetTop)`
pairs and links are `(href, active)` pairs. Scroll offsets are inputs. An attribute that is missing
reads as `null`, as `getAttribute` returns it. The template literal renders that value as the text
`"null"`, so a section without an id makes the handler look for `#null`. `String.prototype.substring`
is modelled with its clamping and argument-swapping behaviour (`JsString`), so a typing tick is total
for every `charIndex`.

Modules: `JsString` (substring semantics), `Typewriter`, `ActiveLink`, `Navbar`, `Menu`, and
`Page`. `Page` wires the others together the way the load handler does. It runs one navbar update,
one active-link update and the first typing tick. After that, each event is dispatched to its
listeners. A reflow event moves the section tops without running any listener, as a layout
change does in the browser; the sections themselves are a fixed list read once at load. It also proves that the page stays consistent with what its handlers
last read under any series of events.

## Model

| member | source | states |
|---|---|---|
| `JsString.Substring` | Steven-Williams-Portfolio/js/main.js:88-92 | substring never fails: both arguments are clamped into [0, length of s] and the slice between them is taken in whichever order they come; from 0 it is the prefix cut at the clamped end |
| `Typewriter.Step` | Steven-Williams-Portfolio/js/main.js:84-105 | the text shown is the title's prefix cut at the new charIndex; typing adds one character at delay 100 and turns to deleting, with a 2000 ms pause, exactly when the title is complete, keeping the title; deleting removes one character at delay 50 and, exactly at zero, turns to typing on title (i+1) mod the number of titles with a 500 ms pause |
| `Typewriter.StartInv` | Steven-Williams-Portfolio/js/main.js:78-81 | the declared start (0, 0, not deleting) satisfies the invariant when every title is non-empty |
| `Typewriter.StepInv` | Steven-Williams-Portfolio/js/main.js:84-105 | a tick keeps titleIndex in range, 0 <= charIndex <= title length, deleting ==> charIndex >= 1, typing ==> charIndex < length; the text shown is exactly the charIndex-prefix of the title the next state names |
| `Typewriter.IterateInv` | Steven-Williams-Portfolio/js/main.js:84-108 | every state reached by any number of ticks from an invariant state satisfies the invariant |
| `Typewriter.IterateAdd` | Steven-Williams-Portfolio/js/main.js:84-108 | helper for the cycle lemmas: a + b successive ticks are a ticks followed by b ticks |
| `Typewriter.TypingRun` | Steven-Williams-Portfolio/js/main.js:91-100 | while the title is incomplete, k typing ticks add exactly k characters and stay in the typing phase |
| `Typewriter.DeletingRun` | Steven-Williams-Portfolio/js/main.js:87-90 | while a character remains, k deleting ticks remove exactly k characters and stay in the deleting phase |
| `Typewriter.TitleCycle` | Steven-Williams-Portfolio/js/main.js:87-105 | a title of n characters takes exactly 2n ticks: after 2n ticks title (i+1) mod the number of titles starts from nothing, and no tick between the first and the (2n-1)th reaches that state |
| `Typewriter.AfterNextTitle` | Steven-Williams-Portfolio/js/main.js:101-104 | once title i has started, 2·length ticks later the next title, or title 0 after the last, starts |
| `Typewriter.AfterTitles` | Steven-Williams-Portfolio/js/main.js:78-108 | after the ticks for the first k titles, title k (or title 0 after all of them) starts from nothing |
| `Typewriter.PeriodReturnsToStart` | Steven-Williams-Portfolio/js/main.js:78-108 | the animation is periodic: one round through all titles returns exactly to the start state |
| `Typewriter.PageTitles` | Steven-Williams-Portfolio/js/main.js:78 | the page's three titles are non-empty, and one full round through them takes 110 ticks and returns to the start |
| `Typewriter.EmptyTitleTypesForever` | Steven-Williams-Portfolio/js/main.js:91-100 | on an empty title the typing phase never ends: charIndex grows without bound and never meets the length, which is why the invariant needs non-empty titles |
| `ActiveLink.LastReached` | Steven-Williams-Portfolio/js/main.js:57-61 | reference selection: -1 exactly when no section's top is reached, otherwise the index of a reached section with no reached section after it |
| `ActiveLink.Current` | Steven-Williams-Portfolio/js/main.js:54-61 | current is `''` when no section is reached, and otherwise the id of the last reached section in document order |
| `ActiveLink.MarkActive` | Steven-Williams-Portfolio/js/main.js:63-68 | the links keep their hrefs and order, and a link is active iff its href equals `#` + current |
| `ActiveLink.UpdateActiveLink` | Steven-Williams-Portfolio/js/main.js:53-69 | the handler's forward pass over the sections yields the last reached id (or `''`), and its pass over the links marks exactly those whose href is `#` + current |
| `ActiveLink.LastReachedMonotonic` | Steven-Williams-Portfolio/js/main.js:57-61 | scrolling further down never moves the selection to an earlier section |
| `ActiveLink.CurrentOfSortedSections` | Steven-Williams-Portfolio/js/main.js:57-61 | with section tops ascending, section i is selected iff its top is reached and the next section's top is not |
| `ActiveLink.MarkActiveIgnoresOldMarks` | Steven-Williams-Portfolio/js/main.js:63-68 | the marks depend only on the hrefs and current, not on the previous marks |
| `ActiveLink.MarkActiveIdempotent` | Steven-Williams-Portfolio/js/main.js:63-68 | repeating the link update with the same current changes nothing |
| `ActiveLink.AtMostOneActive` | Steven-Williams-Portfolio/js/main.js:63-68 | when the hrefs are pairwise distinct, no two links are active at once |
| `ActiveLink.AboveAllSections` | Steven-Williams-Portfolio/js/main.js:54-68 | above every section only a link whose href is the bare `#` is active |
| `Navbar.UpdateNavbar` | Steven-Williams-Portfolio/js/main.js:17-23 | the scrolled flag is set iff scrollY > 50, whatever its previous value |
| `Navbar.UpdateNavbarIdempotent` | Steven-Williams-Portfolio/js/main.js:17-23 | applying the update twice gives the same flag as once |
| `Navbar.AfterScrollsLast` | Steven-Williams-Portfolio/js/main.js:17-26 | after any non-empty series of scroll events the flag reflects only the last offset |
| `Menu.OnHamburgerClick` | Steven-Williams-Portfolio/js/main.js:34-37 | a hamburger click flips both the button's active look and the list's open state |
| `Menu.OnNavLinkClick` | Steven-Williams-Portfolio/js/main.js:40-45 | a navigation-link click leaves both flags off |
| `Menu.ApplyKeepsSynced` | Steven-Williams-Portfolio/js/main.js:34-45 | if the button and the list agree, they agree after any series of clicks |
| `Menu.OpenIffOddToggles` | Steven-Williams-Portfolio/js/main.js:34-45 | starting closed, the list is open, and the button active, iff an odd number of hamburger clicks followed the last link click |
| `Menu.HamburgerClickInvolution` | Steven-Williams-Portfolio/js/main.js:34-37 | two hamburger clicks in a row restore the previous state |
| `Page.Load` | Steven-Williams-Portfolio/js/main.js:17-110 | after loading, the page records the layout and both scroll offsets, the menu is closed, the navbar flag matches the scroll offset, current is the section selected from the document's tops, exactly the links to it are marked, and one typing tick has run: state (0, 1), text the first character of the first title, delay 100, or 2000 with deleting on when that title has one character |
| `Page.Dispatch` | Steven-Williams-Portfolio/js/main.js:25-107 | a scroll records the offsets, sets the navbar flag by the threshold, selects current from the tops as laid out now and marks exactly the links to it; a hamburger click toggles both menu flags, a link click clears them; a tick installs the typing step's state, text and delay; a reflow gives the existing sections new tops, keeping their number, order and ids; every event leaves everything else unchanged |
| `Page.Retop` | Steven-Williams-Portfolio/js/main.js:50-58 | a reflow keeps the loaded sections, their order and ids, and changes only the tops it is given |
| `Page.LoadConsistent` | Steven-Williams-Portfolio/js/main.js:17-110 | the loaded page is consistent: navbar flag, synced menu, links marking the section selected from the tops and position last read, typed text the charIndex-prefix of a title within the invariant |
| `Page.DispatchConsistent` | Steven-Williams-Portfolio/js/main.js:25-107 | every event, reflows included, keeps the page consistent with what its handlers last read |
| `Page.RunConsistent` | Steven-Williams-Portfolio/js/main.js:25-107 | any series of events from a consistent page leaves it consistent with what its handlers last read |
| `Page.PageRunConsistent` | Steven-Williams-Portfolio/js/main.js:4-110 | with the page's own titles, the page is consistent after loading and after any series of events |
| `Page.ReflowLeavesHighlightStale` | Steven-Williams-Portfolio/js/main.js:53-71 | the tops are read only by the scroll handler: in a two-section example (tops 0 and 100, position 150), a reflow that moves the selected section "b" down to 200 leaves the link to "#b" marked although a fresh selection picks "a" |
| `Page.ScrollResynchronises` | Steven-Williams-Portfolio/js/main.js:53-71 | after any scroll the marked links match the section selected from the layout as it is now, whatever reflows came before |

## Left out

- `js/canvas.js`, the particle-network background: floating-point motion, `Math.random`
  initialisation, canvas drawing and the animation-frame loop. It is not part of this model. That
  includes the `NetworkCanvas.init` call at main.js:9. No "particles stay within the canvas" property
  is claimed: `js/canvas.js` applies the mouse repulsion after the clamp, so the code does not
  guarantee it.
- Page.RunConsistent: the links are promised to match the section tops and scroll position the last
  scroll handler read, not the document as it is now. The script rereads `offsetTop` and
  `innerHeight` only on scroll (main.js:55-58), so after a reflow or resize the highlight can be stale
  until the next scroll (`Page.ReflowLeavesHighlightStale`). A window resize, which changes the
  scroll position through `innerHeight`, is not a separate event here because that arithmetic is
  left out; a reflow event stands for both.
- Timer scheduling: re-arming with `setTimeout` (main.js:107) is not modelled. Each tick returns its
  delay instead.
- Scroll-position arithmetic: `scrollY + innerHeight / 3` (main.js:55) is not computed. The scroll
  position reaches the active-link update as an input.
- Scroll-triggered fade-in (main.js:115-129): the intersection threshold and root margin are
  browser logic.
- DOM plumbing: listener registration, element lookup and `classList` mechanics. The page's initial
  HTML classes are not modelled either. The menu is taken to start closed, and links may start
  with any marks.
- Numbers: scroll offsets and section tops are exact reals. NaN and float rounding are not modelled.
  Strings are sequences of `char`, not UTF-16 code units; the titles are plain ASCII.
