# mkunit.sh site script — a Dafny model

This project models the interactive core of the mkunit.sh web site's page script, `js/main.js`. It covers three parts:

- **The hero terminal's typing animation** (`initTerminalAnimation`). A guarded entry point marks the terminal body as animated, clears it, and schedules the first callback after 500 ms. Each callback (`typeNext`) does one unit of work on a fixed script of segments:
  - a `newline` segment inserts a `<br>`;
  - a typed segment opens a span of class `terminal-<type>` if none is open, then appends one character;
  - once a typed segment's text is exhausted, its span is forgotten.
  Each callback then schedules the next one after 100 ms (line break), the segment's `delay || 30` ms (character) or 200 ms (end of segment), until a callback finds the script exhausted.
- **The installation tabs' click handler** (`initInstallTabs`). Exactly the clicked tab becomes active, and exactly the panels whose `data-content` equals its `data-tab` are shown.
- **The documentation sidebar's current-page highlight** (`highlightCurrentPage`). A link becomes active when the page path ends with its `href`, or with its `href` after the first `.html` is removed. No link is ever deactivated.

How the JavaScript is represented:

- The closure variables `lineIndex`, `charIndex` and `currentSpan` become an immutable `State`.
- The callback becomes the pure function `TerminalAnimation.Step`. It returns the new state, the surface actions it performed, and the delay of the callback it schedules, if any.
- The chain of `setTimeout` calls becomes `TerminalAnimation.Run`. It terminates on a lexicographic measure: segments left, then characters left in the current segment.
- `TerminalTrace` gives a stateless reference description of a whole run, segment by segment, and proves the engine produces exactly it.
- `TerminalSurface` plays the actions on a model of the terminal's children: spans and `<br>` nodes.
- The DOM is reduced to the attributes and classes the handlers read and write.

What `typeNext` does not do (`js/main.js:123-155`):

- It keeps only `lineIndex`, `charIndex` and `currentSpan`, with no other phase or mode.
- It never re-checks the terminal after the entry point.
- A line break leaves `currentSpan` and `charIndex` untouched.
- The only default delay is 30 ms. It is used when `line.delay` is falsy, which includes an explicit 0.

## Model

| member | source | states |
|---|---|---|
| TerminalAnimation.CharDelay | js/main.js:148 | the pause after a character is positive; it is the segment's delay when that is truthy, and 30 ms when the delay is missing or 0 |
| TerminalAnimation.Run | js/main.js:127-158 | a run always ends with the segment index past the script, and schedules no callback at all exactly when it starts past the end |
| TerminalAnimation.StepAdvances | js/main.js:127-155 | a callback schedules a successor iff the script is not exhausted; every scheduled delay is positive; the successor state is strictly closer to the end (later segment, or fewer characters left), so the callback chain terminates from any state |
| TerminalAnimation.StepPreservesInv | js/main.js:127-155 | every callback keeps the reachable-state invariant: index within the script, a span open exactly while characters of the current typed segment have been typed, never past its text |
| TerminalAnimation.StepCountsDown | js/main.js:127-155 | from a reachable state that is not finished, a callback schedules a successor and uses up exactly one of the remaining steps |
| TerminalAnimation.RunEnds | js/main.js:127-155 | a run from a reachable state schedules exactly as many callbacks as steps remain, and ends past the last segment with no span open and the character index at 0 |
| TerminalAnimation.StepPastEnd | js/main.js:128 | a callback that finds the script exhausted changes nothing, emits nothing and schedules nothing |
| TerminalAnimation.StepNewline | js/main.js:132-136 | a line-break segment emits exactly one `<br>`, advances to the next segment and schedules the next callback at 100 ms |
| TerminalAnimation.StepTypesChar | js/main.js:139-148 | while characters remain, a callback opens a span of the segment's kind only if none is open, appends exactly `text[charIndex]`, increments `charIndex`, and schedules the segment's delay, or 30 ms when it is missing or 0 |
| TerminalAnimation.StepClosesSegment | js/main.js:139-154 | once the text is typed, the span is forgotten, `charIndex` is reset, the next segment selected and 200 ms scheduled; an empty text opens its span in that same callback and leaves one empty span |
| TerminalAnimation.InitialInv | js/main.js:123-125 | the initial closure state satisfies the invariant and has one step per character, per segment end and per line break still to go |
| TerminalTrace.RunUnfold | js/main.js:127-155 | an unfinished run is its first callback's actions and delay followed by the run from the state that callback leaves |
| TerminalTrace.BreakLine | js/main.js:132-136 | from the start of a line-break segment the run emits a `<br>` and 100 ms, then continues with the next segment |
| TerminalTrace.TypingRun | js/main.js:139-154 | from any reachable state inside a typed segment, the run opens the segment's span if none is open and appends the rest of its text one character at a time, each followed by the segment's delay, then 200 ms, then continues with the next segment |
| TerminalTrace.RunFrom | js/main.js:127-155 | from the start of segment `i` the run emits exactly the reference actions and delays of the segments from `i` on |
| TerminalTrace.RunEmitsScript | js/main.js:123-158 | a complete run emits, segment by segment, a span of the segment's kind followed by its characters, or a `<br>`, with the matching delays, and ends past the last segment with no span open |
| TerminalTrace.RunTypesScriptText | js/main.js:127-155 | the characters a complete run appends are the concatenated texts of the typed segments in order, and it inserts one `<br>` per line-break segment |
| TerminalTrace.HeroScriptContent | js/main.js:110-119 | the hero terminal types the prompt, the command and the three output lines, in that order, with three line breaks |
| TerminalSurface.RenderSegment | js/main.js:139-154 | playing one typed segment from scratch appends one span of its kind holding exactly its text; a line break appends one `<br>` |
| TerminalSurface.RunRendersScript | js/main.js:127-155 | on an empty terminal a complete run leaves one node per segment, each at its script position: a `<br>` exactly where the script has a line break, elsewhere a span of the segment's kind with exactly its text |
| TerminalSurface.StartEffects | js/main.js:105-158 | the entry point does nothing iff the terminal is missing or already marked; otherwise it first sets the mark, clears the terminal, and only then schedules the first callback, at 500 ms |
| TerminalSurface.StartClears | js/main.js:106-122 | an entry point that passes the guard leaves the terminal marked `animated = "true"` and empty |
| TerminalSurface.StartIsGuarded | js/main.js:106-108 | after the entry point has run on a terminal, a second call finds it marked and does nothing |
| TerminalSurface.AnimateOutcome | js/main.js:104-159 | a whole session leaves an absent or already marked terminal unchanged, and otherwise marks it and replaces its content with the script's nodes |
| TerminalSurface.AnimateIdempotent | js/main.js:104-159 | running the animation a second time on the result changes nothing |
| TerminalSurface.RunToCompletion | js/main.js:122-158 | playing the callbacks one by one on a cleared terminal yields exactly the script's nodes, and the last callback fires 500 ms plus the sum of all scheduled delays after the entry point |
| InstallTabs.Click | js/main.js:62-77 | after a click, a tab is active iff it is the clicked one and a panel is active iff its `data-content` equals the clicked tab's `data-tab` (two missing attributes are equal); the attributes are unchanged |
| InstallTabs.ExactlyOneActive | js/main.js:67-68 | the tab state a click leaves has exactly one active tab |
| SidebarHighlight.EndsWithSplit | js/main.js:205 | `endsWith` holds iff the path is some prefix followed by the suffix |
| SidebarHighlight.IndexOf | js/main.js:205 | the found position is an occurrence of the pattern at or after the start, and no earlier position is one; no result means no occurrence |
| SidebarHighlight.ReplaceFirst | js/main.js:205 | a string pattern replaces only its first occurrence, keeping what is before and after it; with no occurrence the string is unchanged |
| SidebarHighlight.StripHtmlInverse | js/main.js:205 | removing the first `.html` is undone by reinserting it at the same position; an `href` without `.html` is unchanged |
| SidebarHighlight.StripHtmlFirstOnly | js/main.js:205 | on `guide.html.html` only the first `.html` is removed |
| SidebarHighlight.StripHtmlKeepsLater | js/main.js:205 | for every `href`, each `.html` after the first one survives the removal, five characters further left |
| SidebarHighlight.Highlight | js/main.js:201-209 | every link keeps its `href`; a link is active afterwards iff it was active before or the path ends with its `href` or with its `href` minus its first `.html`; no link loses `active` |
| SidebarHighlight.HighlightIdempotent | js/main.js:201-209 | running the highlight pass twice gives the same links as running it once |

## Left out

- The mobile menu and docs sidebar toggles (`js/main.js:7-55`): they are click handlers outside the animated core. They toggle and remove classes and set `aria-expanded`, and the sidebar's link handler also reads `window.innerWidth`.
- The copy-to-clipboard buttons (`js/main.js:82-101`): they call the asynchronous clipboard API and timers that are not part of this model.
- Smooth scrolling for anchor links (`js/main.js:162-178`): it is browser scrolling with no state of its own.
- Code block enhancement (`js/main.js:181-198`) and Prism highlighting: they are DOM decoration.
- The `DOMContentLoaded` bootstrap (`js/main.js:212-228`): the model calls each initialiser directly.
- Real time: `setTimeout` is modelled by the delay each step returns. The clock in `RunToCompletion` adds delays up and does not model timer clamping or drift.
- The DOM: elements are reduced to the attributes and classes the handlers use. `innerHTML = ''` is modelled as emptying the children, and a span's class is its `Kind`.
- Text is a sequence of Dafny `char`s. The page indexes UTF-16 code units; the hero script is ASCII, so both agree on it.
- Segment delays are natural numbers. A negative `delay` is truthy in JavaScript and would be handed to `setTimeout`; the model cannot express it.
- A typed segment without `text` cannot be expressed, because `Text` requires a string. In the page, `typeNext` would first open and append a span (`js/main.js:139-143`). It would then throw a TypeError at `line.text.length` (`js/main.js:145`) and schedule nothing. The animation would stop for good, leaving an empty span with `lineIndex` unchanged. The lemmas about all scripts (`RunFrom`, `RunTypesScriptText`, `RunRendersScript`) cover only segments that have text. The hero script gives every typed segment a text.
- A sidebar link without an `href` attribute is not modelled, because `Link.href` is a string. In the page `href` would be null, and `currentPath.endsWith(null)` tests the suffix `"null"` (`js/main.js:205`). On a path ending in `null` the `||` short-circuits, nothing throws and the link becomes active. Otherwise `href.replace` throws a TypeError. The error escapes the `forEach`, so the later links are never processed. It also aborts the `DOMContentLoaded` handler at `js/main.js:217`, before the `setTimeout` at `js/main.js:224-227`, so `initTerminalAnimation` is never called.
- The click handler is given the index of the clicked tab. The registration of one listener per tab (`js/main.js:62-63`) is not modelled separately.
- InstallTabs.Click: tabs and panels are assumed to be different elements. An element with both `.install-tab` and `.install-content` would be in both lists (`js/main.js:59-60`). When clicked, the panel loop would remove its `active` (`js/main.js:72`). It would get `active` back only if its `data-content` equals its own `data-tab` (`js/main.js:73-74`). So the single active tab that `ExactlyOneActive` promises could be lost.
- TerminalAnimation.Step: it carries no `ensures` of its own. Its behaviour is stated by the `Step…` lemmas, which keep each proof obligation small.
