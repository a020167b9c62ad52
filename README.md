# Portfolio page scripts: typewriter banner and scroll effects

A Dafny model of the behaviour in the portfolio site's `script.js` that can be
stated as rules rather than as drawing:

- **The typewriter banner** (`typewriter.dfy`, module `Typewriter`). The page
  cycles through five job titles. On each tick it types one character of the
  current title (80 ms to the next tick) or deletes one (40 ms). It pauses
  2000 ms when a title is complete and 400 ms when it has been deleted, and
  then moves on to the next title, wrapping round after the last. The pure
  function `Next` gives one tick over any list of titles. The class `Rotator`
  holds the variables the page updates in place (`titleIndex`, `charIndex`,
  `isDeleting`, `typingSpeed`). Its method `Typewrite` is proved to do exactly
  what `Next` does, and it returns the text to show and the delay to the next
  tick. The timer that calls `typewrite` again becomes the caller calling
  `Typewrite` again.
- **The scroll handler** (`navigation.dfy`, module `Navigation`). The navbar
  gets the class `scrolled` when the window has scrolled more than 50 pixels.
  The back-to-top button gets `visible` past 500 pixels. The navigation link
  of the section being read gets `active`. That section is the last one, in
  document order, whose top is at most 120 pixels below the scroll offset.
  The class `Page` holds the two flags and the array of links that the
  handler updates.

## Model

| member | source | states |
|---|---|---|
| `Typewriter.Next` | script.js:89-109 | The text shown after a tick is always a prefix of the title current at the start of the tick (JavaScript's `substring` clamps its bound). From a reachable state it is exactly the first `charIndex` characters of that title, with `0 <= charIndex <= length`, and the next state is reachable again: while typing a character is left to type, while deleting one is left to delete, and the title index stays in range. |
| `Typewriter.PageTitlesValid` | script.js:77-87 | The page's five titles are all non-empty, and the start state (first title, nothing typed, typing) satisfies the invariant. |
| `Typewriter.StepDelays` | script.js:92-109 | A typing tick moves `charIndex` up by one and waits 80 ms, or 2000 ms when it completes the word. A deleting tick moves it down by one and waits 40 ms, or 400 ms when it empties the word. |
| `Typewriter.ModeSwitchesAtBoundaries` | script.js:102-109 | The mode flips exactly when typing reaches the title's length or deleting reaches 0. The title changes only in the second case, to the next title round the list. |
| `Typewriter.Run` | script.js:89-111 | Any number of successive ticks keeps the title index in range and keeps a reachable state reachable, and yields one tick's output per step. |
| `Typewriter.RunAppend` | script.js:111 | Running `a` ticks and then `b` more ticks is the same as running `a + b` ticks, both in the final state and in the sequence of texts and delays. |
| `Typewriter.TypingPhase` | script.js:96-104 | From `c` typed characters, the next `length - c` ticks show one more character each, with 80 ms delays and 2000 ms after the last. They end in deleting mode with the whole title shown. |
| `Typewriter.DeletingPhase` | script.js:92-95 | From `c` characters in deleting mode, the next `c` ticks show one character fewer each, with 40 ms delays and 400 ms after the last. They end typing the next title from nothing. |
| `Typewriter.Cycle` | script.js:89-111 | From the start of title `i`, exactly `2·length` ticks type it in full, delete it in full and reach the start of title `(i + 1) % length`. Every state on the way satisfies the index bounds. |
| `Typewriter.Rotation` | script.js:89-111 | From the start of title `i`, the ticks of the next `m` titles, for any `m`, lead to the start of title `(i + m) % length`. |
| `Typewriter.FullRotation` | script.js:89-111 | The banner is periodic. After the ticks of any number `k` of full passes through the list it is back at the start of the title it began with. |
| `Typewriter.PagePeriod` | script.js:77-114 | On the page's own titles a full rotation takes 168 ticks and returns to the start state. |
| `Typewriter.Rotator.constructor` | script.js:77-87 | The rotator starts on the first of the page's titles with nothing typed, typing, and a speed of 80 ms. |
| `Typewriter.Rotator.Typewrite` | script.js:89-112 | One tick updates the three state variables exactly as `Next` does, and returns `Next`'s text and delay. It keeps the invariant and leaves the delay in `typingSpeed`. |
| `Navigation.ThresholdsAreStrict` | script.js:124-135 | Both scroll tests are strict. At 50 and 500 pixels nothing switches on; one pixel further it does. |
| `Navigation.VisibleImpliesScrolled` | script.js:124-135 | Whenever the back-to-top button is visible the navbar is scrolled. The navbar alone is scrolled exactly for offsets in (50, 500]. |
| `Navigation.LastReached` | script.js:170-176 | The selected section has been reached (`scrollY >= offsetTop - 120`), and no later section in document order has. The result is "none" exactly when no section has been reached. |
| `Navigation.ScrollingDownNeverMovesBack` | script.js:170-176 | A larger scroll offset never selects an earlier section. |
| `Navigation.SelectCurrent` | script.js:170-176 | The left-to-right scan returns the id of the last reached section, or `""` when none is reached. |
| `Navigation.MarkLinks` | script.js:178-183 | After the pass, a link is active exactly when its `href` is `"#"` followed by the current id. Every other link is inactive, and every `href` is unchanged. |
| `Navigation.Page.HighlightActiveNav` | script.js:169-184 | Given the sections as laid out at the time of the call, exactly the links whose `href` names the last reached section (or `#` when none is reached) are active, and the hrefs are unchanged. |
| `Navigation.Page.HandleScroll` | script.js:120-139 | The navbar is `scrolled` iff `scrollY > 50`, the back-to-top button is `visible` iff `scrollY > 500`, and the links are highlighted as in `HighlightActiveNav`, over the section offsets current at that scroll event. |
| `Navigation.Page.constructor` | script.js:117-118 | The handler's state starts with neither class set, over the page's navigation links. |

Modelling choices:

- `getAttribute` can return null. Section ids and link hrefs are therefore
  `AttrValue = Str(s) | Null`. A null id rendered into the template literal
  reads `"null"`, so a link with `href="#null"` would be marked active. A null
  `href` never matches.
- The state-machine lemmas are stated for any list of non-empty titles. The
  page's own list is the constant `Titles`, which the `Rotator` constructor
  installs. `PageTitlesValid` and `PagePeriod` instantiate the lemmas for it.
- The document order of sections and links is the order of the sequence and
  of the array.
- The list of sections is fixed when the page loads, but each section's
  `offsetTop` is read again on every scroll event. The handler methods are
  therefore given the sections, with their current offsets, on each call.

## Left out

- The wave background (script.js:7-69) is left out: it is floating-point trigonometry drawn on a canvas each animation frame, with a resize listener.
- `animateCounter` (script.js:218-232) is left out: it adds a floating-point increment on an interval timer.
- The contact form (script.js:235-260) is left out: it builds a `mailto:` URL with the browser's `encodeURIComponent` and `FormData`, navigates, and restores the button on a timer.
- The scroll-reveal and counter IntersectionObservers (script.js:187-216), smooth scrolling to anchors (script.js:263-271), the mobile menu toggles (script.js:149-163) and the back-to-top click (script.js:144-146) are left out: they forward browser events to browser APIs, with no rule of their own to state.
- Timers and DOM writes are not modelled as such. `setTimeout(typewrite, typingSpeed)` becomes the delay `Typewrite` returns, and `textContent` becomes the text it returns. Registering the scroll listener becomes the caller calling `HandleScroll`.
- `Navigation.Page.HandleScroll`: `window.scrollY` and `offsetTop` are modelled as integers. Browsers may report a fractional scroll offset; the comparisons are the same for those, but fractions are not modelled.
- `Navigation.Page.constructor`: the navbar and button are taken to start without their classes. The page's initial markup is not part of this model.
- Strings are modelled as sequences of characters. JavaScript's `length` and `substring` count UTF-16 code units, so the tick counts of `Typewriter.Cycle`, `Typewriter.Rotation` and `Typewriter.FullRotation` match JavaScript only for titles within the Basic Multilingual Plane. The page's five titles are plain ASCII, so the page itself is modelled exactly; a title with a character outside that plane would take more ticks in the browser and show a lone surrogate half on one of them.
- A missing DOM element (for example a null `typewriterEl`) would throw in the script. The model assumes every element it updates exists.
