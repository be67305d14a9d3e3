# Portfolio page state machines, in Dafny

This project models the parts of the portfolio page's script
(`advanced-portfolio/script.js`) that can be stated without a browser. Each
part becomes a pure step function over small immutable state records:

- **Loading splash** (`Loading`). A 100 ms interval adds a random increment
  in `[0, 15)` to the progress and clamps it at 100. It shows the integer part
  as a percentage. The tick that reaches 100 clears the interval and schedules
  the page reveal 500 ms later, provided the splash elements exist. The
  increment is an input.
- **Active navigation link** (`Navigation`). On scroll, the page walks the
  `section[id]` elements in document order. Each section's window runs from
  150 px above its top for the section's height. The page keeps the id of the
  last section whose window holds `scrollY`, or `""` if none does. Then it
  clears every `.nav-link` and marks those whose `href` is `#` plus that id.
- **Particle background** (`Particles`). This covers the configuration chosen
  from the device class, and the order in which one frame visits particles
  and particle pairs. Each particle `i` is moved and drawn, then tested
  against every later particle (`slice(index + 1)`). A frame is modelled as
  its sequence of `Move(i)` / `Check(i, j)` events.
- **Typewriter** (`Typing`). The name pass types one more character every
  100 ms. It then shows the full name without a cursor and hands off, after
  500 ms, to the profession pass. The profession pass types a text forward
  (150 ms a character), pauses 2000 ms when the text is complete, deletes it
  (50 ms a character), pauses 500 ms when it is empty, and moves to the next
  text, wrapping round. The state is `(textIdx, charIdx, isDeleting)`. Every
  step returns what is shown and the delay before the next step.
- **Social panel** (`SocialPanel`). The panel holds one boolean and starts
  closed. A click on the toggle button flips it. The document's click handler
  runs next, because the click bubbles up to it, and it closes the panel when
  the click landed outside the panel container.

JavaScript's `slice(0, end)` is modelled with its clamping and negative ends, so
the profession step is total over integer indices. The invariant lemma then
shows that the indices never leave the text.

## Model

| member | source | states |
|---|---|---|
| `Particles.SelectConfig` | advanced-portfolio/script.js:11-18 | touch-capable devices get 50 particles, speed 0.3 and mouse-interaction radius 60; others get 150, 0.5 and 100; both use size 2 and the three-colour palette |
| `Particles.DeviceConfig` | advanced-portfolio/script.js:11-18 | a device that exposes `ontouchstart` or reports a positive `maxTouchPoints` gets the touch configuration (50, 0.3, 60); a device with neither gets the full one (150, 0.5, 100) |
| `Particles.MobileConfigIsLighter` | advanced-portfolio/script.js:10-17 | the touch configuration has strictly fewer particles, a lower speed and a smaller mouse-interaction radius, and the same size and colours |
| `Particles.FrameVisits` | advanced-portfolio/script.js:267-297 | the events of a frame are exactly the moves of the particles `i < n` and the tests of the pairs `i < j < n`; it never tests `(i, i)` and never tests a pair in both orders |
| `Particles.FrameExactlyOnce` | advanced-portfolio/script.js:267-297 | no event occurs twice in a frame, so each particle is moved once and each unordered pair is tested once |
| `Particles.FrameSize` | advanced-portfolio/script.js:267-297 | a frame over `n` particles has `n + n(n-1)/2` events, of which `n(n-1)/2` are pair tests |
| `Particles.CheckSeesMovedAndUnmoved` | advanced-portfolio/script.js:267-314 | when the pair `(i, j)` is tested, particle `i` has already been moved in this frame, and particle `j` has not been moved yet but is moved later in the same frame |
| `Typing.SlicePrefix` | advanced-portfolio/script.js:371 | `slice(0, end)`: the prefix of length `end` when it is in range, the whole string past the end, and a count from the end for a negative `end` |
| `Typing.StepName` | advanced-portfolio/script.js:349-360 | below the name's length, a step advances the index by one, shows the prefix of the new length with a cursor and waits 100 ms; at full length it shows the whole name without a cursor, keeps the index and hands off after 500 ms |
| `Typing.NamePassTypesOneCharPerStep` | advanced-portfolio/script.js:349-359 | from index 0, after `k` steps the index is `k`; each of the first `|name|` steps shows one more character and keeps the name pass going; step `|name| + 1` shows the full name without a cursor and hands off |
| `Typing.StepProfession` | advanced-portfolio/script.js:362-385 | the index moves one forward, or one back when deleting; the shown text is always a prefix of the current text, and its length is the new index whenever that index lies within the text; completing a text switches to deleting with a 2000 ms pause; emptying one switches to typing the next text modulo the list length with a 500 ms pause; otherwise the delay is 150 ms typing or 50 ms deleting |
| `Typing.StepKeepsInv` | advanced-portfolio/script.js:362-384 | from a state where a text being typed is incomplete and a text being deleted is non-empty, a step keeps that invariant and shows a prefix of the current text |
| `Typing.ReachableStatesAreBounded` | advanced-portfolio/script.js:344-384 | with non-empty texts and the start state `(0, 0, false)`, after any number of steps `0 <= currentProfessionText < |texts|` and `0 <= professionIndex <= |texts[currentProfessionText]|` |
| `Typing.TypeForward` | advanced-portfolio/script.js:373-377 | typing forward from index `c` reaches the full text in `|text| - c` steps; the delays are 150 ms each and then 2000 ms; the pass is left deleting the same text |
| `Typing.DeleteBack` | advanced-portfolio/script.js:378-382 | deleting from index `c` empties the text in `c` steps; the delays are 50 ms each and then 500 ms; the pass moves to text `(t + 1) % |texts|` at index 0, typing |
| `Typing.FullCycle` | advanced-portfolio/script.js:362-385 | one cycle over a non-empty text takes `2|text|` steps with the delays typing…, 2000, deleting…, 500, and ends on the next text at `(t + 1) % |texts|, 0, typing` |
| `Typing.EmptyTextNeverDeletes` | advanced-portfolio/script.js:365-375 | on an empty text the index grows without bound and the pass never starts deleting, so the bound above needs every text to be non-empty |
| `Typing.StepTypewriter` | advanced-portfolio/script.js:349-385 | the combined machine: the name pass advances while the name is incomplete, then hands off to the profession pass at `(0, 0, false)` and shows the whole name without a cursor; the profession pass only writes the profession element |
| `Typing.HandOffAfterName` | advanced-portfolio/script.js:344-359 | from the start the machine stays in the name pass for `|name| + 1` steps and afterwards runs the profession pass from `(0, 0, false)` |
| `Typing.PageTypewriterIsBounded` | advanced-portfolio/script.js:337-385 | for the page's own name and its three texts, every reachable state of the typewriter is within bounds |
| `Loading.TickOnce` | advanced-portfolio/script.js:46-60 | a tick sets the progress to `min(progress + inc, 100)`, never lowering it; it completes iff `progress + inc >= 100`, which is exactly when the new progress is 100; the interval stops iff the tick completed; the shown percentage is the integer part of the progress; the next tick follows 100 ms later, and a completing tick instead schedules the reveal 500 ms later |
| `Loading.TickKeepsValid` | advanced-portfolio/script.js:46-52 | a tick keeps the progress in `[0, 100]` and keeps "stopped iff at 100"; the shown percentage is in `[0, 100]` and reads 100 iff loading completed |
| `Loading.Run` | advanced-portfolio/script.js:44-60 | after any sequence of ticks the progress is in `[0, 100]` and the interval is stopped exactly when the progress is 100 |
| `Loading.StoppedRunIsFinal` | advanced-portfolio/script.js:52-53 | once the interval has been cleared, further increments leave the state unchanged |
| `Loading.RunIsClampedSum` | advanced-portfolio/script.js:46-57 | after any sequence of ticks the progress is the running total of the increments clamped at 100; the splash has completed iff that total reached 100 |
| `Loading.ProgressMonotone` | advanced-portfolio/script.js:46-48 | more ticks never lower the progress |
| `Loading.AtLeastSevenTicks` | advanced-portfolio/script.js:46-52 | since every increment is below 15, completion needs at least seven ticks |
| `Navigation.LastMatch` | advanced-portfolio/script.js:197-206 | returns none iff no window holds `scrollY`; otherwise it returns a section whose window holds `scrollY` and no later section's window does |
| `Navigation.CurrentSection` | advanced-portfolio/script.js:197-206 | the front-to-back walk that overwrites on every match returns `""` when no window holds `scrollY`, and otherwise the id of the last section whose window holds it |
| `Navigation.MarkLinks` | advanced-portfolio/script.js:208-213 | a link is active iff its `href` is `#` followed by the current id; all others are cleared, whatever they were before |
| `Navigation.UpdateActiveNavLink` | advanced-portfolio/script.js:193-214 | one scroll event: a link ends up active iff its `href` is `#` followed by the id of the last section whose window holds `scrollY` (or `#` alone when none does) |
| `Navigation.AtMostOneActive` | advanced-portfolio/script.js:208-213 | when links have distinct `href`s, at most one link is active |
| `Navigation.ActiveLinkNamesWinner` | advanced-portfolio/script.js:197-213 | an active link points at the winning section; when no section matches, only a bare `#` link can be active |
| `Navigation.LaterSectionWins` | advanced-portfolio/script.js:199-206 | when two windows hold `scrollY`, the earlier section never wins and the winner is at least as late as the later one |
| `SocialPanel.ToggleHandler` | advanced-portfolio/script.js:650-651 | a toggle click negates `isOpen` |
| `SocialPanel.OutsideHandler` | advanced-portfolio/script.js:677-682 | a click outside the container leaves the panel closed, whether it was open or closed; a click inside leaves the panel as it was |
| `SocialPanel.Dispatch` | advanced-portfolio/script.js:650-682 | with both handlers in bubbling order: a toggle click inside the container flips the state, an outside click closes the panel, and any other click inside changes nothing |
| `SocialPanel.ToggleTwiceRestores` | advanced-portfolio/script.js:650-651 | two consecutive toggle clicks restore the original state |
| `SocialPanel.UncontainedToggleCloses` | advanced-portfolio/script.js:677-682 | if the button were outside the container, a toggle click would always leave the panel closed |
| `SocialPanel.OpenIffOddTogglesSinceOutside` | advanced-portfolio/script.js:647-682 | with the button inside the container, the panel is open after a click history iff the toggle clicks since the last outside click are odd in number; when there was no outside click, that parity is applied to the initial state instead |

## Left out

- DOM and canvas side effects are not modelled: class toggles, inline styles, `innerHTML` markup, circle and line drawing, `scrollTo`. Shown text is a `Display(text, cursor)` value, and the loading label is the integer percentage without the `%` suffix.
- Timers, `setInterval`/`clearInterval`, `requestAnimationFrame` and its cancellation are not modelled. Delays are returned values. The two routes that start the typewriter (the 2000 ms check of the loaded flag, and `startTyping` after the hero entrance) can start two overlapping chains; that is scheduling behaviour and is not modelled.
- `Math.random` is not modelled. The loading increment is an input in `[0, 15)`. Particle creation (random positions, velocities, sizes, colours, opacities) is left out. The count invariant appears only as "one move per particle per frame".
- Particle kinematics are not modelled: the position update, the reflection test on the post-move position, the mouse nudge, and the `< 80` connection test. These are floating-point geometry with random initial state. Reflection does not keep particles inside the canvas, so no bounds claim is made. The nudge (script.js:277-285) subtracts the vector that points towards the pointer, so it pushes particles away from the pointer rather than pulling them in.
- Loading.TickOnce: progress is an exact real, and the rounding of each `progress += …` in double precision is not modelled. So "completes iff `progress + inc >= 100`" describes exact arithmetic: an increment just below 10 added to 90 can round to 100 in JavaScript and complete, where the model does not. Clamping, monotonicity and "completed iff progress is 100" hold either way.
- Loading.TickOnce: the model assumes both `#loadingScreen` and `#loadingPercentage` exist, which the page looks up without a null check (script.js:42-43). Without `#loadingPercentage`, every tick throws at the label update, before the completion test. The interval is then never cleared and the splash never completes. Without `#loadingScreen`, the reveal callback throws before the loaded flag is set.
- Loading.RunIsClampedSum: for the same reason, "progress is the running total clamped at 100" is the exact sum of the increments. The page accumulates a rounded double sum, which can differ in the last bits.
- Typing.SlicePrefix: strings here are sequences of Unicode code points, while JavaScript's `length` and `slice` count UTF-16 code units. A text containing a character outside the Basic Multilingual Plane therefore takes more steps on the page than in the model, and the page can show half a surrogate pair partway through. The page's own name and texts use only characters from the Basic Multilingual Plane, where the two counts agree, so the general typing lemmas describe them exactly.
- Navigation.InWindow: section offsets and heights are integers, as the layout reports them, and `scrollY` is a real; sub-pixel layout values are not modelled.
- The scroll-progress bar (script.js:216-229) is not modelled: it is a float division, and the document height can be 0.
- Also not modelled: the contact-form simulation, the intersection observer and scroll-reveal, the custom cursor, parallax and hover effects, the navbar `scrolled` class, the link-click smooth scrolling and the mobile menu toggle. None of these is part of the state machines above.
- SocialPanel.OpenIffOddTogglesSinceOutside: it assumes the toggle button sits inside the `socialPanel` container, because the page markup (index.html) is not part of this model. `UncontainedToggleCloses` covers the other placement.
- The document click handler calls `socialPanel.contains` without checking that `socialPanel` exists. Only the toggle and the links panel are checked. A page without the container would throw on every click; this is not modelled.
- Typing.StepProfession and Typing.StepTypewriter: they require a non-empty list of texts and an in-range text index. Indexing outside the list gives `undefined`, and calling `slice` on it throws; the page's own constants never do this.
- `advanced-portfolio/portfolio_server.py` is not modelled: it is TCP server plumbing around the `mimetypes` library.
