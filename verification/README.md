# omScroll paging controller in Dafny

A model of the paging controller of the omScroll jQuery plugin
(`jquery.omscroll.js`, version 2.3.7). The plugin turns a container into an
infinite-scroll pager. It finds the container's "next" link. It watches the
scrolling region (the container, or the window when the container's
`overflow-y` is `visible`). When the covered height plus a padding reaches the
bottom of the content, it fetches the next page into the container. It repeats
this until a fetched page has no next link.

Without the DOM and jQuery, what remains is a small sequential state machine.
The model states it as pure functions over immutable records:

- `wrappers.dfy` defines `Option`.
- `js_values.dfy` (module `JsValues`) covers the part of JavaScript the controller relies on:
  - values, with truthiness;
  - plain objects, with `$.extend`;
  - `$.trim`;
  - the string and number conversions that `+`, `>` and `>=` apply.
- `options.dfy` (module `Options`) covers options:
  - the defaults;
  - the three-way option merge, including the bare-function shorthand;
  - the typed reading of the merged options;
  - the choice between auto and click binding;
  - the `autoTriggerUntil` countdown.
- `threshold.dfy` (module `Threshold`) is the scroll trigger's arithmetic. Measurements are reals; `Math.ceil` is modelled explicitly. It also covers JavaScript's `+` when `padding` is a string.
- `paging.dfy` (module `Paging`) is one controller instance:
  - its data record (`initialized`, `waiting`, `nextHref`);
  - target composition;
  - `_wrapInnerContent`, `_destroy`, `_load`, `_observe`, `_setBindings` and `_checkNextHref`;
  - the completion handlers of a fetch;
  - the click handler;
  - activation.

  Events are scroll, click, fetch success, fetch failure and an explicit teardown. Each handler runs to completion and returns the new controller plus its outside effects: a fetch issued, the callback called, or a `TypeError` thrown. Selector matches, visibility and measurements are inputs to the events.
- `plugin.dfy` (module `Plugin`) covers `$.fn.omscroll` over a set of containers, and the `destroy` handle that activation publishes.

Four behaviours of the code worth knowing, each stated by a lemma:

- **Missing next link at activation.** Activation does not tear down. The initial target is the text `undefined` followed by the content selector, and no handler is bound (`Paging.MissingLinkAtActivation`).
- **One fetch in flight.** Only the scroll path checks `waiting` before it loads. The click handler loads without looking at it, so a click can start a second fetch while one is in flight (`Paging.ClickIgnoresWaiting`).
- **Teardown of a window-scrolled container.** When the window scrolls, teardown unbinds and clears data on the window. The container keeps its record and its wrapper, so it can never be activated again (`Paging.WindowTeardownKeepsGuard`).
- **Click handler after teardown.** Teardown leaves the click handler on the next link. Clicking after the record is gone throws (`Paging.ClickAfterDestroyFaults`).

## Model

| member | source | states |
|---|---|---|
| JsValues.Extend | jquery.omscroll.js:39 | `$.extend` keeps every target key and adds the source's keys whose value is not `undefined`. Each value comes from the source when the source defines it, else from the target. |
| JsValues.TrimSplits | jquery.omscroll.js:45 | `$.trim` removes only white space: the input is white space, then the result, then white space. |
| JsValues.TrimCharacterised | jquery.omscroll.js:45 | Any split of a string into white space, a core without edge white space, and white space trims to that core. |
| JsValues.TrimEmpty | jquery.omscroll.js:45 | The trimmed string is empty exactly when the input is all white space. |
| JsValues.TrimIdempotent | jquery.omscroll.js:45 | Trimming twice is trimming once. |
| JsValues.TrimIgnoresTrailingSpace | jquery.omscroll.js:45 | Appending white space does not change the trimmed string. |
| JsValues.DigitStringToNumber | jquery.omscroll.js:97 | A non-empty string of decimal digits converts to the number those digits denote. |
| JsValues.NumberStringRoundTrip | jquery.omscroll.js:97 | Converting an integer to a string and back to a number gives the integer. |
| Options.MergeOptions | jquery.omscroll.js:37-39 | The merged options have exactly the keys of the defaults plus the keys defined by the user options or the existing record. Each value comes from the last of defaults, user options, existing record that defines it. |
| Options.MergeIsExtendChain | jquery.omscroll.js:39 | The last-defining merge equals `$.extend({}, base, over, top)` whenever the base has no `undefined` value. |
| Options.MergeOptionsIsExtend | jquery.omscroll.js:39 | The merged options are `$.extend({}, defaults, userOptions, data \|\| {})`, and none of their values is `undefined`. |
| Options.CallbackShorthand | jquery.omscroll.js:38-39 | A bare function argument merges exactly like `{callback: fn}`, whatever the existing record holds. It becomes the `callback` option unless the existing record defines one. |
| Options.NothingGivenIsDefaults | jquery.omscroll.js:17-31 | With no argument and no record, the merged options are the defaults. |
| Options.DefaultConfig | jquery.omscroll.js:17-31 | The defaults read as auto-trigger without limit, padding 0, no content selector and no callback. |
| Options.ResolveUntil | jquery.omscroll.js:123 | `autoTriggerUntil` means no limit exactly when it is `false`. Otherwise its allowance is positive exactly when the value converts to a positive number. |
| Options.AfterBind | jquery.omscroll.js:123-136 | One binding keeps every option except the allowance. An auto binding uses up exactly one unit of a positive allowance, `false` never changes, and a click binding changes nothing. |
| Options.CountdownModes | jquery.omscroll.js:123-144 | From an allowance of N, exactly the first N bindings are auto and every later one is click mode. Without a limit all bindings are auto; with `autoTrigger` off all are click mode. |
| Options.ClickModeIsFinal | jquery.omscroll.js:123-144 | Once a binding falls back to click mode, every later binding is click mode. |
| Threshold.Ceil | jquery.omscroll.js:95 | `Math.ceil(x)` is the least integer not below `x`. |
| Threshold.NumericPadding | jquery.omscroll.js:95-97 | With a numeric padding, the trigger fires exactly when the rounded-up covered height plus the padding reaches the inner wrapper's outer height. |
| Threshold.CeilingBias | jquery.omscroll.js:95-97 | Rounding up biases towards triggering: an exact sum that reaches the height always triggers, and a trigger falls short by less than one pixel. |
| Threshold.MonotoneInScroll | jquery.omscroll.js:93-97 | When the window scrolls, scrolling it further down never turns a trigger off. |
| Threshold.MonotoneInOwnScroll | jquery.omscroll.js:93-97 | When the container scrolls itself, scrolling it further down moves the inner wrapper up, and that never turns a trigger off. |
| Threshold.NaNPaddingNeverTriggers | jquery.omscroll.js:97 | A string padding holding a non-digit that trimming cannot remove, and none of `.`, `e`, `x`, `b`, `o` (either case) that could extend the number into an exponent, fraction or radix literal, makes the concatenated sum NaN, and the trigger never fires; so does an `undefined` padding. |
| Threshold.StringPaddingConcatenates | jquery.omscroll.js:97 | A digit-string padding `d` is concatenated, not added: the sum reads as `covered * 10^\|d\| + d` for a non-negative covered height, and as `covered * 10^\|d\| - d` for a negative one, whose sign leads the digits. |
| Paging.Compose | jquery.omscroll.js:45 | The composed fetch target never starts or ends with white space. |
| Paging.ComposeClean | jquery.omscroll.js:45 | With clean, non-empty parts, the target is the link, one space, and the content selector. |
| Paging.ComposeWithoutSelector | jquery.omscroll.js:45 | Without a content selector, the target is the trimmed link. |
| Paging.ComposeMissingHref | jquery.omscroll.js:41-45 | A missing `href` gives a target that starts with the text `undefined`. |
| Paging.NextAfterLoad | jquery.omscroll.js:169-171 | After a load, the new target is `false` exactly when the fetched fragment has no next link or an empty `href`. Otherwise it is the target composed from that fragment's link. |
| Paging.NextAfterLoadTruthy | jquery.omscroll.js:107-115 | After a load, paging goes on (the new target is truthy) exactly when the fragment's link has a non-empty `href` and `href + ' ' + contentSelector` is not all white space. |
| Paging.BlankHrefIsFalsy | jquery.omscroll.js:169-171 | A white-space `href` with no content selector gives the empty target, which counts as "no more pages". |
| Paging.Wrap | jquery.omscroll.js:57-61 | After wrapping there is a wrapper, and an existing wrapper is never doubled. |
| Paging.WrapIdempotent | jquery.omscroll.js:57-61 | Wrapping twice is wrapping once. |
| Paging.Destroy | jquery.omscroll.js:77-82 | Teardown always removes the scroll handler. If the container scrolls itself, its record and wrappers are removed. If the window scrolls, the container keeps both. Nothing else changes. |
| Paging.DestroyIdempotent | jquery.omscroll.js:77-82 | Tearing down twice is tearing down once. |
| Paging.Load | jquery.omscroll.js:148-165 | Without a record, a load throws. Otherwise it sets `waiting` and changes nothing else in the record. It fetches the record's `nextHref` exactly when that is a string and a wrapper exists, and the fetch becomes pending. |
| Paging.Observe | jquery.omscroll.js:85-101 | An invisible container does nothing. A visible one is wrapped, then loads exactly when it has a record, is not waiting and the threshold is reached. It throws exactly when it is visible and has no record. |
| Paging.ObserveRespectsWaiting | jquery.omscroll.js:97 | While the record is waiting, a scroll evaluation never fetches. |
| Paging.ScrollFetchNeedsAllThree | jquery.omscroll.js:85-101 | A scroll event fetches only if the handler is bound, the container is visible, the record is not waiting and the threshold is reached. |
| Paging.Bind | jquery.omscroll.js:118-145 | Called, as the source always calls it, on a container with a record. With no next link, nothing changes. In auto mode, the scroll handler is bound, the trigger is evaluated at once when the content fits, and the allowance counts down. In click mode, the scroll handler goes and the link gets the click handler. |
| Paging.BindsFollowCountdown | jquery.omscroll.js:118-136 | Successive bindings that each find a next link choose the modes of the options' countdown: from an allowance of N, exactly the first N are auto. |
| Paging.HandlerChangesOnlyWithUnbind | jquery.omscroll.js:77-145 | An event that neither tears down nor binds with a next link leaves the scroll handler as it was. |
| Paging.CheckNextHref | jquery.omscroll.js:106-116 | Without a record, or with a falsy `nextHref`, the controller tears down. Otherwise it rebinds. |
| Paging.Settle | jquery.omscroll.js:164-171 | A completed fetch leaves the pending list. The record, if still attached, stops waiting and takes the new target, and every other key is kept. |
| Paging.LoadSucceeded | jquery.omscroll.js:164-176 | After a successful fetch, the controller rebinds or tears down according to the new target. A last page ends with no further fetch and no scroll handler. A function callback is called last, with the target that was fetched. A falsy callback is not called. |
| Paging.LoadFailed | jquery.omscroll.js:165-168 | A failed fetch tears down without any effect and without touching the record's `nextHref` or `waiting`. |
| Paging.ClickNext | jquery.omscroll.js:139-143 | A click on an armed link loads, and a hidden link is disarmed. Any other click does nothing. |
| Paging.ClickIgnoresWaiting | jquery.omscroll.js:139-152 | With a fetch in flight and the record waiting, a click on an armed link issues a second fetch of the same target. |
| Paging.ClickAfterDestroyFaults | jquery.omscroll.js:139-152 | After teardown of a container that scrolls itself, a click on an armed link throws. |
| Paging.StepAccounting | jquery.omscroll.js:165-168 | After any event, the fetches in flight are those carried over plus those the event issued. Each completion retires exactly one issued fetch. |
| Paging.ConfigChangesOnlyOnRebind | jquery.omscroll.js:134-136 | The options change only when a successful load rebinds, and then by one countdown step. |
| Paging.InitialRecord | jquery.omscroll.js:202 | The fresh record has `initialized` true, `waiting` false and `nextHref` the composed target. |
| Paging.InitialRecordIsExtend | jquery.omscroll.js:202 | The fresh record is `$.extend({}, _data, {initialized: true, waiting: false, nextHref})`, and it keeps every other defined key of the prior record. |
| Paging.Attach | jquery.omscroll.js:215-225 | Activation does nothing exactly when the container's record is already initialized. Otherwise it constructs a controller and makes its first bindings. |
| Paging.AttachRecordContents | jquery.omscroll.js:200-205 | After activation, the record is initialized and `nextHref` is the composed target. `waiting` is set exactly when the first binding started a fetch. That fetch is the only one in flight, and nothing throws. |
| Paging.MissingLinkAtActivation | jquery.omscroll.js:41-45 | Without a next link, activation neither tears down nor binds. The record holds the truthy target `undefined…`. |
| Paging.AttachTwiceIsNoOp | jquery.omscroll.js:221-223 | Activating an activated container again does nothing, whatever the argument. |
| Paging.AttachEstablishesInv | jquery.omscroll.js:200-205 | After activation, a bound scroll handler implies a record, and a record implies a wrapper. |
| Paging.StepPreservesInv | jquery.omscroll.js:77-180 | Every event keeps that invariant. |
| Paging.ScrollNeverFaults | jquery.omscroll.js:85-101 | Under the invariant, a scroll event never throws. |
| Paging.WindowTeardownKeepsGuard | jquery.omscroll.js:77-82 | When the window scrolls, teardown leaves the initialized record on the container, so activation stays a no-op. |
| Paging.PageTwoScenario | jquery.omscroll.js:164-176 | Take next link `/page/2` and content selector `.body`. The target is `/page/2 .body`, and scrolling to the threshold fetches it. A fragment with no next link then ends paging after that one load, and the callback receives `/page/2 .body`. |
| Plugin.LastActivated | jquery.omscroll.js:215-225 | A call that constructs an instance leaves the shared handle on the last container in the set that it constructs on. A call constructs nothing exactly when every container is already active, and then the handle keeps what an earlier call left in it. |
| Plugin.AttachEach | jquery.omscroll.js:215-225 | Each container in the set gets the outcome of activating it alone, except that a window-scrolled container loses its scroll handler when a later container in the set binds on the window. Every controller already running that the window scrolls, skipped containers of the set included, loses its scroll handler exactly when some container of the set binds on the window, and is otherwise unchanged. The shared handle ends up on the last activated one. |
| Plugin.SharedHandleDestroy | jquery.omscroll.js:207-210 | As written, the `destroy` handle read from any container tears down the instance the handle holds. Another controller changes only when both it and the torn-down one are scrolled by the window, and then it loses just its scroll handler. With no activation ever made it throws. |
| Plugin.SharedHandleMisdirects | jquery.omscroll.js:207-210 | With two fresh containers, the first scrolling itself, the handle read from the first tears down the second, and the first keeps its scroll handler and its record. |
| Plugin.OwnHandleDestroy | jquery.omscroll.js:207-210 | A `destroy` scoped to the caller tears down the caller's controller. Another controller changes only when both are scrolled by the window, and then it loses just its scroll handler. |
| Plugin.OwnHandleIsDestroyEvent | jquery.omscroll.js:207-210 | The scoped handle is the caller's own teardown event, and it is idempotent. |
| Plugin.PageStep | jquery.omscroll.js:77-145 | An event for one container changes that container's controller. Another controller changes only when both are scrolled by the window and the handler tears down or binds with a next link, which unbinds every `.omscroll` handler on the window; then it loses just its scroll handler. |
| Plugin.OwnScrollIsIndependent | jquery.omscroll.js:77-145 | The events of a container that scrolls itself change no other controller. |
| Plugin.SharedWindowTeardown | jquery.omscroll.js:77-82 | Of two window-scrolled controllers, tearing down either one removes the other's scroll handler. |
| Plugin.PageStepPreservesInv | jquery.omscroll.js:77-180 | An event for any container keeps the invariant of every controller in the set. |

## Left out

- DOM surgery is left out; the wrappers are a count and the bindings are flags. This covers the `wrapAll`/`unwrap` of the content and the `.omscroll-added` fragments, hiding and removing the next link's parent (`_nextWrap`, line 172), inserting the fetched HTML, and the zero-duration `animate`.
- Selector evaluation, visibility and geometry measurement are inputs. These are `find`, `is(':visible')`, `offset`, `css`, `height` and `outerHeight`, plus the bind-time "content fits the viewport" test of lines 125-128, which is a boolean input.
- The network is left out. `.load` is an effect, and its completion arrives later as exactly one success or failure event. The fetched fragment is reduced to the `href` of its next link. The failure event is the `error` status only, the one line 166 tests. jQuery's other failures (`timeout`, `abort`) take the success path with no next link found: they are a success event with a missing `href`, which tears down and still calls the callback with the target.
- The loading indicator, `loadingFunction`, image preloading (`_preloadImage`) and `_debug` are left out. They affect control flow only through the two throws below.
- `_preloadImage` (line 49) parses `loadingHtml` as a selector or HTML. A value that is neither, such as `Loading...`, throws after the record and wrapper are set (lines 202-203) and before `_setBindings` (line 205), and the throw also stops the activation of the later containers in the set. The model assumes `loadingHtml` parses.
- A `loadingFunction` that is truthy but not a function throws inside the synchronous `.promise().done` (lines 156-160), after `waiting` is set and before the fetch goes out. The model assumes it is a function or falsy.
- Paging.Load: the fetch target is read when the load starts, because the `animate` callback of duration 0 runs synchronously. `.load` with a non-string target (jQuery's event-binding overload in old versions) is modelled as issuing no request.
- Paging.Wrap: a container with no child nodes cannot be wrapped by `wrapAll`. The model still counts one wrapper. Such a container has no next link and so never binds.
- Paging.ClickNext: one click target is modelled. If the link is not hidden, repeated rebinding in click mode can leave several click handlers on old links; these are not counted.
- Only one controller instance per container is modelled. A re-activation after a window-scrolled teardown is ruled out by the guard anyway. Re-activation while an older instance's fetch is in flight is left out. Several containers are modelled only by `Plugin`: `Paging` alone does not see the window that window-scrolled containers share.
- JsValues.ToNumber reads a trimmed string as an optional sign and decimal digits, and anything else as NaN. Hexadecimal, exponent, fractional and `Infinity` forms are not modelled. Numbers are integers, apart from the reals of the geometry.
- Options.UserOptions: an argument that is a primitive other than a function is not modelled. Option values that are objects are opaque to the model.
- Paging.LoadSucceeded: the callback's `this`, the fetched DOM element, is not modelled; only its argument is.
- `Gruntfile.js` is build tooling with no behaviour, and is not part of this model.

## Findings

| source | as written | input that shows it | evidently intended | confidence | as-written member | corrected member |
|---|---|---|---|---|---|---|
| jquery.omscroll.js:207-210 | `$.extend($e.omscroll, {destroy: _destroy})` stores the handle on the plugin function, which every jQuery object shares | Activate two fresh containers A and B with one call, A scrolling itself, then call `$(A).omscroll.destroy()`: B is torn down and A keeps its scroll handler | each activated container exposes a `destroy` for itself, as the comment at line 207 describes | not executed | Plugin.SharedHandleDestroy (exhibited by Plugin.SharedHandleMisdirects) | Plugin.OwnHandleDestroy (Plugin.OwnHandleIsDestroyEvent) |
