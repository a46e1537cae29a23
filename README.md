# Auto dark mode content script, in Dafny

This project models the content script of a browser extension that darkens
light web pages. The script does nothing on a page that is already dark.

On a light page, under a dark system preference, it does three things:

- it declares `color-scheme: dark` on the root element;
- it injects one `<style id="auto-dark-mode-style">` element into the head;
- it fills that element with a CSS block that inverts and hue-rotates the
  page and inverts media back.

It follows the system preference through a debounced change listener. A
debounced mutation observer on the body notices a page that switches to
its own dark theme. The cleanup detaches the style element.

The modules follow the script's structure:

- `ColorHeuristic` (`color_heuristic.dfy`): `isColorDark` and
  `isDarkModeAlreadyEnabled`, as pure functions.
  - A colour string is split into its maximal digit runs, as the regular
    expression `/\d+/g` does.
  - The first three runs are read as the red, green and blue channels.
  - The colour is dark when `299 r + 587 g + 114 b < 128000`, that is,
    when the exact BT.601 luma is below 128. The script sums in floating
    point, which differs on the boundary (see "## Left out").
  - The lemmas state the short-circuited spellings and the luma threshold.
    They also prove a round trip: the runs of a colour written as
    `rgb(r, g, b)` or `rgba(r, g, b, a)` are the channels.
- `Dom` (`dom.dfy`): the part of the document the script touches.
  - The root element's colour scheme.
  - A table of elements, each with an id and a text.
  - The head's children, as handles into that table.
  - The computed backgrounds of the body and the root element.
  - Each DOM operation is a function on a `Page` value. A `Document`
    class, updated in place, is proved to do what those functions say.
- `Debounce` (`debounce.dfy`): `debounce(func, wait)`.
  - A `Debouncer` object holds the pending timer: the arguments of the
    last call.
  - Its behaviour over any history of calls, timer firings and clears is
    given by `Pending` and `Runs`.
  - The lemmas prove last-call-wins and coalescing.
- `DarkMode` (`dark_mode.dfy`): `applyDarkMode`, `removeDarkMode`, the
  observer's re-check and the cleanup's style removal, as functions on the
  script's state together with the page.
  - The invariant is stated here. The filter is on only while the owned
    element is attached and holds the CSS, and never on a page cached as
    dark. Once the element exists, its text and the colour scheme follow
    the filter flag.
  - The lemmas prove that every operation keeps the invariant, and that it
    holds over any sequence of events.
  - They prove idempotence, the apply/remove round trips, and that at
    most one style element is kept.
  - They prove that a page judged dark is never touched again.
- `ContentScript` (`content_script.dfy`): the closure state of `main()`
  as a `Controller` class.
  - The class holds the script's variables, the document, the three
    debouncers, and the listener, observer and idle-callback wiring.
  - Each browser event is a method: a preference change, a timer firing,
    the page restyling itself, the idle callback, the cleanup.
  - Each method is proved to act as the `DarkMode` functions say.
  - Scenario methods run the script on any light page. They cover start-up
    and a switch to light, a page turning dark, and the teardown finding
    below.

## Model

| member | source | states |
|---|---|---|
| ColorHeuristic.IsColorDark | entrypoints/content.ts:22-40 | The model of `isColorDark` carries no contract of its own. The lemmas below state its behaviour: the transparent spellings and colours with fewer than three digit runs are not dark, and otherwise the first three runs decide by `299r+587g+114b < 128000`. |
| ColorHeuristic.IsDarkModeAlreadyEnabled | entrypoints/content.ts:9-44 | `isDarkModeAlreadyEnabled`. It has no contract of its own; `PageDarkness` and `PageDarknessOnRgb` state it. |
| ColorHeuristic.Channels | entrypoints/content.ts:29-35 | The first three matches read as numbers, or nothing when there are fewer than three. It has no contract of its own; `ChannelsOfRgb` states its round trip. |
| ColorHeuristic.DecimalValue | entrypoints/content.ts:33-35 | The unary `+` on a run of digits. It has no contract of its own; `DecimalRoundTrip` states that it reads back a channel's spelling. |
| ColorHeuristic.LeadingDigits | entrypoints/content.ts:29 | The prefix it measures is all digits and is maximal: the next character is not a digit. |
| ColorHeuristic.DigitRuns | entrypoints/content.ts:29 | Every match of `/\d+/g` is a non-empty run of digits. |
| ColorHeuristic.TransparentIsNotDark | entrypoints/content.ts:24-26 | `""`, `rgba(0, 0, 0, 0)` and `transparent` are never dark. |
| ColorHeuristic.FewRunsAreNotDark | entrypoints/content.ts:29-30 | A colour with fewer than three digit runs is not dark. |
| ColorHeuristic.OnlyFirstThreeRunsMatter | entrypoints/content.ts:29-35 | Two colours whose first three digit runs agree get the same verdict. Alpha and further numbers are ignored. |
| ColorHeuristic.DecimalRoundTrip | entrypoints/content.ts:33-35 | Reading back the decimal spelling of a channel gives the channel (the unary `+`). |
| ColorHeuristic.DigitRunsOfInterleave | entrypoints/content.ts:29 | Digit runs joined by non-digit separators, non-empty between two runs, are matched back exactly, in order, including when the string ends in a digit. |
| ColorHeuristic.DigitRunsOfChannels | entrypoints/content.ts:29 | Three digit runs joined by a non-empty separator without digits, and followed by a non-digit, are matched as those three runs, followed by the tail's matches. |
| ColorHeuristic.DigitRunsOfRgb | entrypoints/content.ts:29 | The matches in `rgb(r, g, b)` are the three channels' decimal spellings. |
| ColorHeuristic.DigitRunsOfRgba | entrypoints/content.ts:29-35 | The first three matches in `rgba(r, g, b, a)` are the channels, whatever the alpha is. |
| ColorHeuristic.ChannelsOfRgb | entrypoints/content.ts:29-35 | The channels read back from `rgb(r, g, b)` are exactly `(r, g, b)`. |
| ColorHeuristic.IsColorDarkOnRgb | entrypoints/content.ts:36-39 | `rgb(r, g, b)` is dark iff its exact luma `299r+587g+114b` is below `128000`. |
| ColorHeuristic.IsColorDarkOnRgba | entrypoints/content.ts:24-39 | `rgba(r, g, b, a)` is dark iff it is not the literal `rgba(0, 0, 0, 0)` and its luma is below 128. The alpha is ignored. |
| ColorHeuristic.IsColorDarkOnUnspacedRgba | entrypoints/content.ts:24-39 | `rgba(r,g,b,a)` written without spaces is never short-circuited. It is dark iff its luma is below 128. |
| ColorHeuristic.UnspacedTransparentBlackIsDark | entrypoints/content.ts:24 | Only the spaced spelling is caught: `rgba(0,0,0,0)` counts as dark. |
| ColorHeuristic.GreyThreshold | entrypoints/content.ts:36-39 | Under the exact luma, a grey `rgb(v, v, v)` is dark iff `v < 128`: black is dark, white and mid grey are light. |
| ColorHeuristic.PageDarkness | entrypoints/content.ts:9-44 | With no body the page is not dark. Otherwise it is dark iff the body's or the root's background is dark. |
| ColorHeuristic.PageDarknessOnRgb | entrypoints/content.ts:9-44 | With computed colours `rgb(...)` for the body and the root, the page is dark iff either luma is below 128. |
| Dom.FindById | entrypoints/content.ts:72 | `getElementById` returns an attached element carrying the id. It finds nothing iff no child of the head carries it. |
| Dom.FindByIdIsFirst | entrypoints/content.ts:72 | The element found is the first one carrying the id, in document order. |
| Dom.Detached | entrypoints/content.ts:76 | Detaching `h` keeps exactly the other children and is the identity when `h` is not attached. `DetachedCounts` and `DetachedKeepsFind` state the multiplicities and the order. |
| Dom.DetachedCounts | entrypoints/content.ts:76 | Detaching removes every occurrence of `h` and keeps every other child as many times as before. |
| Dom.DetachedKeepsFind | entrypoints/content.ts:72-76 | Detaching an element without the id leaves `getElementById` of that id unchanged. |
| Dom.CountId | entrypoints/content.ts:72-77 | The count of children carrying an id is zero iff `getElementById` finds nothing. |
| Dom.Created | entrypoints/content.ts:74 | `createElement` adds one new element, with no id and no text. The old elements, the head, the colour scheme and both backgrounds are unchanged. |
| Dom.Appended | entrypoints/content.ts:76 | `appendChild` makes the element the head's last child. It keeps the other children. A detached element is simply added at the end. |
| Dom.Removed | entrypoints/content.ts:189 | `remove()` detaches the element and keeps every other child. |
| Dom.CountIdAppend | entrypoints/content.ts:76 | Appending an element adds one to the count of its id and leaves other ids' counts unchanged. |
| Dom.CountIdFrame | entrypoints/content.ts:81-96 | Changing elements' texts does not change which children carry an id. |
| Dom.CountIdPositive | entrypoints/content.ts:72 | An attached element carrying the id is counted. |
| Dom.DetachedInTable | entrypoints/content.ts:189 | Detaching keeps every child a valid element. |
| Dom.Document.constructor | entrypoints/content.ts:11-12 | The document object starts as the given page. |
| Dom.Document.GetElementById | entrypoints/content.ts:72 | The method returns `FindById` of the current document. |
| Dom.Document.CreateElement | entrypoints/content.ts:74 | The new state is `Created` of the old one, and the handle is the new element. |
| Dom.Document.SetId | entrypoints/content.ts:75 | Only the element's id changes. |
| Dom.Document.SetText | entrypoints/content.ts:81-96 | Only the element's text changes. |
| Dom.Document.AppendChild | entrypoints/content.ts:76 | The new state is `Appended` of the old one. |
| Dom.Document.RemoveChild | entrypoints/content.ts:189 | The new state is `Removed` of the old one. |
| Dom.Document.SetColorScheme | entrypoints/content.ts:68 | Only the root's colour scheme changes. |
| Dom.Document.Restyle | entrypoints/content.ts:18-19 | The page's own code changes the computed backgrounds the heuristic reads, and nothing else. |
| Debounce.CallsRunNothing | entrypoints/content.ts:123-124 | Calls alone never run the function. After a burst, the pending arguments are the last call's. |
| Debounce.LastCallWins | entrypoints/content.ts:116-126 | A burst of calls followed by the timer firing runs the function exactly once, with the last call's arguments. Nothing is left pending. |
| Debounce.CancelledNeverRuns | entrypoints/content.ts:120-123 | A cleared timer that then fires runs nothing. |
| Debounce.RunsWereCalled | entrypoints/content.ts:118-122 | Every run, and every pending timer, carries the arguments of some call. |
| Debounce.RunsAtMostCalls | entrypoints/content.ts:116-126 | Runs plus pending timers never outnumber calls. |
| Debounce.Debouncer.constructor | entrypoints/content.ts:117 | A new wrapper has no pending timer. |
| Debounce.Debouncer.Call | entrypoints/content.ts:123-124 | A call replaces the pending arguments with its own and records the call; `CallsRunNothing` shows it runs nothing. |
| Debounce.Debouncer.Fire | entrypoints/content.ts:119-122 | Firing runs exactly the pending arguments, if any, and clears them. |
| Debounce.Debouncer.Clear | entrypoints/content.ts:185-191 | Cancelling the pending timer from outside, as the corrected cleanup does, drops the pending call and records the cancellation. `CancelledNeverRuns` shows a cleared call never runs. |
| DarkMode.StyleFor | entrypoints/content.ts:71-78 | The owned element is reused with the page unchanged. Otherwise a found or created element is used, and it is attached. Either way the result carries the id, and the colour scheme and both backgrounds are unchanged. `StyleForOutcome` says which element. |
| DarkMode.StyleForOutcome | entrypoints/content.ts:72-78 | Without an owned element, the element `getElementById` finds is reused and the page is unchanged. If it finds nothing, a new element at the next handle, carrying the id and no text, is appended to the end of the head, and nothing else in the table or head changes. |
| DarkMode.Apply | entrypoints/content.ts:50-97 | `applyDarkMode` keeps the state consistent: the owned handle names an element carrying the fixed id. |
| DarkMode.Remove | entrypoints/content.ts:100-113 | `removeDarkMode` keeps the state consistent. |
| DarkMode.Recheck | entrypoints/content.ts:163-172 | The observer's callback keeps the state consistent. |
| DarkMode.DetachStyle | entrypoints/content.ts:188-190 | The cleanup's style removal keeps the state consistent. |
| DarkMode.Step | entrypoints/content.ts:129-172 | Any operation of the script, or a page restyle, keeps the state consistent. |
| DarkMode.Run | entrypoints/content.ts:129-172 | Any sequence of events keeps the state consistent. |
| DarkMode.ApplyOutcome | entrypoints/content.ts:50-97 | Apply leaves the filter on iff it was on, or the page is neither cached as dark nor now judged dark. An enabled state is unchanged. A refusal changes only the cache, to true. An enabled result declares `dark` and has an attached owned element holding exactly the fixed id and the CSS. |
| DarkMode.FirstApplyOnLightPage | entrypoints/content.ts:65-96 | The first apply on a light page without the style element sets `dark`. It appends one new element with the id and the CSS at the end of the head and changes nothing else. |
| DarkMode.ApplyPreservesInv | entrypoints/content.ts:50-97 | Apply keeps the invariant. |
| DarkMode.ApplyIdempotent | entrypoints/content.ts:52 | Applying twice equals applying once. |
| DarkMode.ApplyKeepsOneStyle | entrypoints/content.ts:71-78 | Apply adds an element with the style id only when the filter turns on and none was attached. Otherwise the count is unchanged. |
| DarkMode.EnabledMeansOneStyle | entrypoints/content.ts:71-81 | While the filter is on, and with at most one element carrying the style id, exactly one carries it. |
| DarkMode.RemoveOutcome | entrypoints/content.ts:100-113 | Remove is a no-op when light. Otherwise it clears the flag and declares `light`. It empties the owned element's text but keeps the element attached, and the style count is unchanged. |
| DarkMode.RemovePreservesInv | entrypoints/content.ts:100-113 | Remove keeps the invariant. |
| DarkMode.RemoveIdempotent | entrypoints/content.ts:102 | Removing twice equals removing once. |
| DarkMode.ApplyRemoveRoundTrip | entrypoints/content.ts:109-112 | After apply then remove: the page is light, the element is still attached with `""` text, and applying again restores the applied state exactly. Once the element exists, apply then remove is the identity. |
| DarkMode.RemoveApplyRoundTrip | entrypoints/content.ts:50-113 | Remove then apply restores a filtered page that has not turned dark. |
| DarkMode.DecideActions | entrypoints/content.ts:164-170 | The re-check removes iff the preference is dark, the page is not cached dark, is now dark and the filter is on. It applies iff the preference is dark, the page is not cached dark, is not dark now and the filter is off. |
| DarkMode.Decide | entrypoints/content.ts:164-170 | The re-check's choice between removing, applying and doing nothing. It has no contract of its own; `DecideActions` states it. |
| DarkMode.RecheckFollowsHeuristic | entrypoints/content.ts:164-170 | After a re-check under a dark preference, the cache holds the fresh verdict and the filter is on iff the page is not dark. |
| DarkMode.RecheckIdle | entrypoints/content.ts:164 | Under a light preference, or once the page is cached dark, the re-check changes nothing. |
| DarkMode.RecheckPreservesInv | entrypoints/content.ts:163-172 | The re-check keeps the invariant. |
| DarkMode.RecheckKeepsOneStyle | entrypoints/content.ts:163-172 | The re-check never creates a second element carrying the style id. |
| DarkMode.TurningDarkRemovesFilter | entrypoints/content.ts:164-170 | When a filtered page turns dark, the re-check is `removeDarkMode` plus caching the verdict: the filter is off, `light` is declared, and a later apply does nothing. |
| DarkMode.DetachStyleOutcome | entrypoints/content.ts:188-190 | With no owned element the cleanup changes nothing. Otherwise it detaches exactly that element and lowers the style count by one. |
| DarkMode.DetachedCountsOneLess | entrypoints/content.ts:189 | Detaching the one attached element carrying the style id lowers the count by one. |
| DarkMode.StepPreservesInv | entrypoints/content.ts:50-172 | Every operation and page restyle keeps the invariant and "at most one style element". |
| DarkMode.InvAlways | entrypoints/content.ts:50-172 | The invariant and "at most one style element" hold after any sequence of events. |
| DarkMode.CacheIsSticky | entrypoints/content.ts:55-57 | No operation resets a true `isPageAlreadyDark`. |
| DarkMode.NativeDarkModeWins | entrypoints/content.ts:55-62 | Once the page is cached as dark, after any events the filter is off. The cache stays true, and the elements, the head and the colour scheme are unchanged. |
| ContentScript.Controller.constructor | entrypoints/content.ts:144-182 | `main()` runs apply at once only when there is no idle callback and the preference is dark. Otherwise the state is the initial one. It registers the listener, and observes the body only if there is one. No timer is pending. |
| ContentScript.Controller.ApplyDarkMode | entrypoints/content.ts:50-97 | The new state is `DarkMode.Apply` of the old one, and the wiring is unchanged. |
| ContentScript.Controller.FindOrCreateStyle | entrypoints/content.ts:71-78 | The document and the owned handle become `DarkMode.StyleFor` of the old ones. |
| ContentScript.Controller.RemoveDarkMode | entrypoints/content.ts:100-113 | The new state is `DarkMode.Remove` of the old one. |
| ContentScript.Controller.MutationRecheck | entrypoints/content.ts:164-171 | The new state is `DarkMode.Recheck` of the old one, under the live preference, and the invariant is kept. |
| ContentScript.Controller.IdleCallbackRuns | entrypoints/content.ts:145-150 | A pending idle callback applies under a dark preference and is then gone. Otherwise nothing changes. |
| ContentScript.Controller.PreferenceChanged | entrypoints/content.ts:136-142 | A registered listener calls the debounced apply for dark and the debounced remove for light. No timer is touched when unregistered, and the page is unchanged. |
| ContentScript.Controller.PageRestyled | entrypoints/content.ts:175-182 | A restyle through the body's class or style calls the observer's debounced callback only while the observer is connected. |
| ContentScript.Controller.ApplyTimerFires | entrypoints/content.ts:129 | The apply timer applies iff a call was pending. |
| ContentScript.Controller.RemoveTimerFires | entrypoints/content.ts:130 | The remove timer removes iff a call was pending. |
| ContentScript.Controller.RecheckTimerFires | entrypoints/content.ts:163-172 | The observer's timer re-checks iff a call was pending. |
| ContentScript.Controller.CleanupAsWritten | entrypoints/content.ts:185-191 | The cleanup as written detaches the owned element if there is one and stops the listener and the observer. It leaves the idle callback and the timers pending. |
| ContentScript.Controller.Cleanup | entrypoints/content.ts:185-191 | The corrected cleanup also clears the three timers and the idle callback, so nothing can act on the page afterwards. |
| ContentScript.WhitePage | entrypoints/content.ts:36-39 | A white page is light and has no style element, which witnesses the scenarios' preconditions. |
| ContentScript.StartupThenLight | entrypoints/content.ts:144-159 | On a light page under a dark preference, start-up appends one element holding the CSS and declares `dark`. A switch to light then empties it, keeps it, and declares `light`. |
| ContentScript.PageTurnsDark | entrypoints/content.ts:163-172 | When a filtered page's body turns dark, the observer's debounced re-check removes the filter, declares `light` and caches the page as dark. |
| ContentScript.LateApplyAfterCleanupAsWritten | entrypoints/content.ts:185-191 | With the cleanup as written, a debounced apply pending at teardown fires afterwards. It declares `dark` and appends a style element holding the CSS. |
| ContentScript.NoLateApplyAfterCleanup | entrypoints/content.ts:185-191 | With the corrected cleanup, the same events and a late preference change leave the page exactly as it was. |

## Left out

- The browser APIs are inputs. `getComputedStyle` is the page's background fields. `matchMedia` is the `prefersDarkMatches` field. The listener, `MutationObserver` and `requestIdleCallback` are flags and event methods. `setTimeout` and `clearTimeout` are the `Debouncer`'s events.
- The 100 ms and 500 ms windows are not modelled. Timer firings are explicit events, in any order, so the model also allows firing orders a real clock would rule out.
- The luma is computed exactly, scaled by 1000. The script sums `0.299 * r + 0.587 * g + 0.114 * b` in double precision, left to right. On the boundary the two differ: for `rgb(128, 128, 128)` the double sum is `127.99999999999999`, so the script calls mid grey dark. Of the 111 triples of 8-bit channels whose exact luma is 128, the double sum falls below 128 on 46, which the script calls dark and the model calls light. No other 8-bit triple differs.
- ColorHeuristic.IsColorDarkOnRgb: states the exact-luma verdict. The script's verdict differs on the 46 boundary triples above.
- ColorHeuristic.GreyThreshold: states the exact-luma verdict. The script calls `rgb(128, 128, 128)` dark, through the floating-point sum above.
- The page's own code is modelled as changing only the two computed backgrounds (`Restyle`). It never removes the style element, edits its id or text, or sets `color-scheme`: the style element and the declared scheme belong to the script alone. `InvAlways`, `NativeDarkModeWins` and `Controller.Valid` rely on this.
- Channel values are unbounded naturals. JavaScript turns very long digit runs into imprecise or infinite numbers.
- The visual effect of the injected CSS is not modelled. The CSS is a fixed string constant. Its effect on the computed backgrounds the re-check reads, through the rule `html { background: #fff }`, is not derived either. Those backgrounds change only when the environment says so, through `PageRestyled`.
- `getElementById` is modelled as a search of the head's children only. Elements elsewhere in the document that carry the id are not represented.
- The mutation records passed to the observer's callback are not modelled, because the callback ignores them.
- The `defineContentScript` wrapper, the `matches` declaration and `wxt.config.ts` are not part of this model. They carry no logic.
- DarkMode.EnabledMeansOneStyle: "exactly one style element" is stated for pages holding at most one element with that id beforehand. On a page with two or more, `getElementById` reuses the first and the count is unchanged.

## Findings

| source | as written | input that shows it | evidently intended | confidence | as-written member | corrected member |
|---|---|---|---|---|---|---|
| entrypoints/content.ts:185-191 | The cleanup disconnects the observer, removes the listener and detaches the style element. It does not clear the debounced apply, remove and re-check timers, or cancel the pending idle callback. | Light page, light preference. The system switches to dark, and the script is torn down within 100 ms. The debounced apply then fires: it declares `color-scheme: dark` and appends a fresh style element holding the filter CSS to a page the script has let go of. | Teardown also cancels every pending timer and the idle callback, so nothing acts on the page afterwards. | medium, not executed | ContentScript.LateApplyAfterCleanupAsWritten | ContentScript.Controller.Cleanup |
