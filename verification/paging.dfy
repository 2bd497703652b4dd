/**
 * The per-container paging controller: the data record attached to the
 * container, the scroll and click bindings, the trigger evaluation, the load
 * cycle and teardown, as transitions over abstract events. Selector matches,
 * visibility and measurements are inputs; each fetch is an effect whose
 * completion arrives later as exactly one success or failure event.
 */
module Paging {
  import opened Wrappers
  import opened JsValues
  import opened Options
  import opened Threshold

  const InitializedKey: string := "initialized"
  const WaitingKey: string := "waiting"
  const NextHrefKey: string := "nextHref"

  /** What a transition does outside the state. */
  datatype Effect =
    | Fetch(target: string)  // `.load(target, …)` issued
    | CallbackCall(source: string, fetched: string)  // the `callback` option called with a fetched target
    | Fault  // a TypeError escapes the handler

  /** Whether the container is visible, and its measurements, when the trigger is evaluated. */
  datatype View = View(visible: bool, geometry: Geometry)

  /**
   * What `_setBindings` finds: whether `nextSelector` matches in the
   * container, whether the content is shorter than the viewport (which makes
   * it evaluate the trigger at once), and the view for that evaluation.
   */
  datatype BindView = BindView(linkPresent: bool, fits: bool, view: View)

  /** One controller instance: its resolved options and what it has done to the page. */
  datatype Controller = Controller(
    config: Config,  // the merged options; `autoTriggerUntil` counts down
    isWindow: bool,  // the container's overflow-y is visible, so the window scrolls
    record: Option<Object>,  // the container's `omscroll` data record, when attached
    innerWrappers: nat,  // the number of `.omscroll-inner` wrappers in the container
    scrollBound: bool,  // a `scroll.omscroll` handler is bound on the scrolling region
    clickArmed: bool,  // a visible next link carries the `click.omscroll` handler
    pending: seq<string>)  // targets of fetches issued and not yet completed, in issue order

  datatype Outcome = Outcome(ctrl: Controller, effects: seq<Effect>)

  /** The targets of the fetches among `effects`, in order. */
  function Fetches(effects: seq<Effect>): (ts: seq<string>)
    ensures |ts| <= |effects|
  {
    if effects == [] then []
    else (if effects[0].Fetch? then [effects[0].target] else []) + Fetches(effects[1..])
  }

  lemma {:induction false} FetchesAppend(a: seq<Effect>, b: seq<Effect>)
    ensures Fetches(a + b) == Fetches(a) + Fetches(b)
    decreases |a|
  {
    if a != [] {
      assert (a + b)[1..] == a[1..] + b;
      FetchesAppend(a[1..], b);
    } else {
      assert a + b == b;
    }
  }

  /** The `waiting` flag of the attached record; false when there is none. */
  predicate Waiting(c: Controller) {
    c.record.Some? && Truthy(Get(c.record.value, WaitingKey))
  }

  /** The record's `nextHref`; `undefined` when there is no record. */
  function NextHref(c: Controller): Value {
    if c.record.Some? then Get(c.record.value, NextHrefKey) else Undefined
  }

  // ---------------------------------------------------------------------
  // Targets
  // ---------------------------------------------------------------------

  /** The `href` attribute as a JavaScript value: absent is `undefined`. */
  function HrefValue(href: Option<string>): Value {
    match href
    case Some(h) => Str(h)
    case None => Undefined
  }

  /** `$.trim(href + ' ' + contentSelector)`: the string a fetch is given. */
  function Compose(href: Option<string>, contentSelector: string): (t: string)
    ensures NoEdgeSpace(t)
  {
    Trim(JsString(HrefValue(href)) + " " + contentSelector)
  }

  /** With clean, non-empty parts the target is the link and the selector separated by one space. */
  lemma ComposeClean(href: string, contentSelector: string)
    requires href != [] && NoEdgeSpace(href)
    requires contentSelector != [] && NoEdgeSpace(contentSelector)
    ensures Compose(Some(href), contentSelector) == href + " " + contentSelector
  {
    var s := href + " " + contentSelector;
    assert s[0] == href[0] && s[|s| - 1] == contentSelector[|contentSelector| - 1];
    TrimClean(s);
  }

  /** Without a content selector the target is the trimmed link. */
  lemma ComposeWithoutSelector(href: string)
    ensures Compose(Some(href), "") == Trim(href)
  {
    assert href + " " + "" == href + " ";
    TrimIgnoresTrailingSpace(href, " ");
  }

  /**
   * A missing `href` is not caught at activation: the target is the text
   * `undefined`, followed by the content selector when there is one.
   */
  lemma ComposeMissingHref(contentSelector: string)
    ensures |Compose(None, contentSelector)| >= 9
    ensures Compose(None, contentSelector)[..9] == "undefined"
  {
    var s := "undefined" + " " + contentSelector;
    assert s[0] == 'u' && s[8] == 'd';
    assert TrimStart(s) == s;
    var r := TrimEnd(s);
    assert r[..9] == s[..9];
  }

  /**
   * The target after a load (line 171): from the fetched fragment's own next
   * link only; a missing or empty `href` gives `false`.
   */
  function NextAfterLoad(fragmentHref: Option<string>, contentSelector: string): (v: Value)
    ensures v == Bool(false) <==> fragmentHref.None? || fragmentHref.value == ""
    ensures v != Bool(false) ==> v == Str(Compose(fragmentHref, contentSelector))
  {
    if fragmentHref.Some? && fragmentHref.value != "" then Str(Compose(fragmentHref, contentSelector))
    else Bool(false)
  }

  /**
   * The target after a load is truthy, so paging goes on, exactly when the
   * fragment has a non-empty `href` and the composed target is not all white
   * space.
   */
  lemma NextAfterLoadTruthy(fragmentHref: Option<string>, contentSelector: string)
    ensures Truthy(NextAfterLoad(fragmentHref, contentSelector)) <==>
      fragmentHref.Some? && fragmentHref.value != "" && !AllSpace(fragmentHref.value + " " + contentSelector)
  {
    if fragmentHref.Some? && fragmentHref.value != "" {
      TrimEmpty(fragmentHref.value + " " + contentSelector);
    }
  }

  /**
   * A white-space `href` is truthy, so it is composed, but with no content
   * selector the composed target is empty and therefore falsy.
   */
  lemma BlankHrefIsFalsy(href: string)
    requires href != [] && AllSpace(href)
    ensures NextAfterLoad(Some(href), "") == Str("")
    ensures !Truthy(NextAfterLoad(Some(href), ""))
  {
    ComposeWithoutSelector(href);
    TrimEmpty(href);
  }

  // ---------------------------------------------------------------------
  // Wrapping and teardown
  // ---------------------------------------------------------------------

  /** `_wrapInnerContent`: adds an inner wrapper only when there is none. */
  function Wrap(wrappers: nat): (r: nat)
    ensures r >= 1
    ensures wrappers >= 1 ==> r == wrappers
  {
    if wrappers == 0 then 1 else wrappers
  }

  /** Wrapping is idempotent. */
  lemma WrapIdempotent(wrappers: nat)
    ensures Wrap(Wrap(wrappers)) == Wrap(wrappers)
  {
  }

  /**
   * `_destroy`: unbinds the scroll handler from the scrolling region and
   * removes the record from it. When the window scrolls that region is the
   * window: the container keeps its record and its wrapper. Otherwise the
   * record goes and the wrappers are unwrapped. Click handlers on links stay.
   */
  function Destroy(c: Controller): (d: Controller)
    ensures !d.scrollBound
    ensures c.isWindow ==> d.record == c.record && d.innerWrappers == c.innerWrappers
    ensures !c.isWindow ==> d.record.None? && d.innerWrappers == 0
    ensures d.config == c.config && d.isWindow == c.isWindow
    ensures d.clickArmed == c.clickArmed && d.pending == c.pending
  {
    if c.isWindow then c.(scrollBound := false)
    else c.(scrollBound := false, record := None, innerWrappers := 0)
  }

  /** Tearing down twice is tearing down once. */
  lemma DestroyIdempotent(c: Controller)
    ensures Destroy(Destroy(c)) == Destroy(c)
  {
  }

  // ---------------------------------------------------------------------
  // Loading and the trigger
  // ---------------------------------------------------------------------

  /**
   * `_load`: marks the record waiting, then fetches its `nextHref`. Without a
   * record the handler throws. The request goes out only when there is a
   * wrapper to load into and the target is a string.
   */
  function Load(c: Controller): (o: Outcome)
    ensures c.record.None? ==> o == Outcome(c, [Fault])
    ensures c.record.Some? ==> o.ctrl.record == Some(c.record.value[WaitingKey := Bool(true)])
    ensures c.record.Some? ==> Fault !in o.effects
    ensures Fetches(o.effects) ==
      (if c.record.Some? && c.innerWrappers >= 1 && NextHref(c).Str? then [NextHref(c).s] else [])
    ensures o.ctrl.pending == c.pending + Fetches(o.effects)
    ensures o.ctrl.(record := c.record, pending := c.pending) == c
  {
    match c.record
    case None => Outcome(c, [Fault])
    case Some(rec) =>
      var marked := c.(record := Some(rec[WaitingKey := Bool(true)]));
      var target := Get(rec, NextHrefKey);
      if c.innerWrappers >= 1 && target.Str? then
        Outcome(marked.(pending := c.pending + [target.s]), [Fetch(target.s)])
      else
        Outcome(marked, [])
  }

  /** The three conditions of the scroll test: visible, not waiting, threshold reached. */
  predicate Triggers(c: Controller, v: View) {
    v.visible && c.record.Some? && !Waiting(c) && Reached(v.geometry, c.config.padding)
  }

  /**
   * `_observe`: when the container is visible it makes sure of the wrapper,
   * then starts a load exactly when the record is not waiting and the
   * threshold is reached.
   */
  function Observe(c: Controller, v: View): (o: Outcome)
    ensures !v.visible ==> o == Outcome(c, [])
    ensures Triggers(c, v) ==> o == Load(c.(innerWrappers := Wrap(c.innerWrappers)))
    ensures !Triggers(c, v) ==> Fetches(o.effects) == [] && o.ctrl.record == c.record && o.ctrl.pending == c.pending
    ensures Fault in o.effects <==> v.visible && c.record.None?
    ensures v.visible ==> o.ctrl.innerWrappers >= 1
    ensures o.ctrl.config == c.config && o.ctrl.isWindow == c.isWindow
    ensures o.ctrl.scrollBound == c.scrollBound && o.ctrl.clickArmed == c.clickArmed
  {
    if !v.visible then Outcome(c, [])
    else
      var wrapped := c.(innerWrappers := Wrap(c.innerWrappers));
      match wrapped.record
      case None => Outcome(wrapped, [Fault])
      case Some(rec) =>
        if !Truthy(Get(rec, WaitingKey)) && Reached(v.geometry, c.config.padding) then Load(wrapped)
        else Outcome(wrapped, [])
  }

  /** Starting from a record that is already waiting, a scroll evaluation never fetches. */
  lemma ObserveRespectsWaiting(c: Controller, v: View)
    requires Waiting(c)
    ensures Fetches(Observe(c, v).effects) == []
    ensures Observe(c, v).ctrl.pending == c.pending
  {
  }

  // ---------------------------------------------------------------------
  // Bindings
  // ---------------------------------------------------------------------

  /** The bind-time evaluation starts a load. */
  predicate BindTriggers(c: Controller, bv: BindView) {
    bv.linkPresent && ChooseMode(c.config) == Auto && bv.fits && Triggers(c, bv.view)
  }

  /**
   * `_setBindings`: with no next link nothing happens. In auto mode the
   * trigger is evaluated at once when the content fits the viewport, the
   * scroll handler is (re)bound and the allowance counts down; in click mode
   * the scroll handler goes and the next link gets the click handler. Both
   * callers (activation and `_checkNextHref`) run it with a record attached.
   */
  function Bind(c: Controller, bv: BindView): (o: Outcome)
    requires c.record.Some?
    ensures !bv.linkPresent ==> o == Outcome(c, [])
    ensures bv.linkPresent && ChooseMode(c.config) == Auto ==>
      o.ctrl.scrollBound && o.ctrl.config == AfterBind(c.config) && o.ctrl.clickArmed == c.clickArmed
    ensures bv.linkPresent && ChooseMode(c.config) == ClickToLoad ==>
      o == Outcome(c.(scrollBound := false, clickArmed := true), [])
    ensures bv.linkPresent ==> o.ctrl.config == AfterBind(c.config)
    ensures BindTriggers(c, bv) ==> o.ctrl.record == Load(c.(innerWrappers := Wrap(c.innerWrappers))).ctrl.record
    ensures BindTriggers(c, bv) ==> o.effects == Load(c.(innerWrappers := Wrap(c.innerWrappers))).effects
    ensures !BindTriggers(c, bv) ==> Fetches(o.effects) == [] && o.ctrl.record == c.record
    ensures o.ctrl.pending == c.pending + Fetches(o.effects)
    ensures o.ctrl.isWindow == c.isWindow
    ensures o.ctrl.record.Some? && Fault !in o.effects
    ensures o.ctrl.innerWrappers >= c.innerWrappers
  {
    if !bv.linkPresent then Outcome(c, [])
    else if ChooseMode(c.config) == Auto then
      var o := if bv.fits then Observe(c, bv.view) else Outcome(c, []);
      Outcome(o.ctrl.(scrollBound := true, config := AfterBind(c.config)), o.effects)
    else
      Outcome(c.(scrollBound := false, clickArmed := true), [])
  }

  /** Unlimited auto mode with content that does not fit: only the scroll handler is bound. */
  lemma BindWithoutFit(c: Controller, bv: BindView)
    requires c.record.Some? && bv.linkPresent && !bv.fits
    requires c.config.autoTrigger && c.config.until.Unlimited?
    ensures Bind(c, bv) == Outcome(c.(scrollBound := true), [])
  {
    assert AfterBind(c.config) == c.config;
  }

  /** The modes that successive bindings choose, each seeing the options the previous one left. */
  function BindModes(c: Controller, bvs: seq<BindView>): (ms: seq<Mode>)
    requires c.record.Some?
    ensures |ms| == |bvs|
    decreases |bvs|
  {
    if bvs == [] then [] else [ChooseMode(c.config)] + BindModes(Bind(c, bvs[0]).ctrl, bvs[1..])
  }

  /**
   * Bindings that each find a next link follow the countdown of the
   * options: with an allowance of N exactly the first N are auto.
   */
  lemma {:induction false} BindsFollowCountdown(c: Controller, bvs: seq<BindView>)
    requires c.record.Some?
    requires forall j :: 0 <= j < |bvs| ==> bvs[j].linkPresent
    ensures BindModes(c, bvs) == Modes(c.config, |bvs|)
    ensures forall j :: 0 <= j < |bvs| ==> BindModes(c, bvs)[j] == ExpectedMode(c.config, j)
    decreases |bvs|
  {
    if bvs != [] {
      var next := Bind(c, bvs[0]).ctrl;
      assert next.config == AfterBind(c.config);
      BindsFollowCountdown(next, bvs[1..]);
    }
    CountdownModes(c.config, |bvs|);
  }

  /**
   * `_checkNextHref`: tears down when there is no record or its `nextHref`
   * is falsy, and rebinds otherwise.
   */
  function CheckNextHref(c: Controller, bv: BindView): (o: Outcome)
    ensures !(c.record.Some? && Truthy(NextHref(c))) ==> o == Outcome(Destroy(c), [])
    ensures c.record.Some? && Truthy(NextHref(c)) ==> o == Bind(c, bv)
  {
    match c.record
    case None => Outcome(Destroy(c), [])
    case Some(rec) =>
      if !Truthy(Get(rec, NextHrefKey)) then Outcome(Destroy(c), []) else Bind(c, bv)
  }

  // ---------------------------------------------------------------------
  // Completion of a fetch
  // ---------------------------------------------------------------------

  function Remove(s: seq<string>, i: nat): (r: seq<string>)
    requires i < |s|
    ensures |r| == |s| - 1
  {
    s[..i] + s[i + 1..]
  }

  /**
   * The record updates of a successful load (lines 170-171): `waiting`
   * cleared and `nextHref` recomputed from the fragment; the fetch is no
   * longer pending. A record removed meanwhile stays removed.
   */
  function Settle(c: Controller, i: nat, fragmentHref: Option<string>): (s: Controller)
    requires i < |c.pending|
    ensures s.pending == Remove(c.pending, i)
    ensures s.record.Some? <==> c.record.Some?
    ensures c.record.Some? ==> !Waiting(s)
    ensures c.record.Some? ==> NextHref(s) == NextAfterLoad(fragmentHref, c.config.contentSelector)
    ensures c.record.Some? ==> forall k :: k in c.record.value && k != WaitingKey && k != NextHrefKey ==>
      k in s.record.value && s.record.value[k] == c.record.value[k]
    ensures s.(record := c.record, pending := c.pending) == c
  {
    var rec := match c.record
      case None => None
      case Some(r) => Some(r[WaitingKey := Bool(false)][NextHrefKey := NextAfterLoad(fragmentHref, c.config.contentSelector)]);
    c.(record := rec, pending := Remove(c.pending, i))
  }

  /**
   * The callback call after a successful load: a function is called with the
   * target that was fetched; a truthy non-function throws.
   */
  function CallbackEffects(callback: Value, fetched: string): (r: seq<Effect>)
    ensures callback.Func? ==> r == [CallbackCall(callback.source, fetched)]
    ensures !Truthy(callback) ==> r == []
    ensures Fetches(r) == []
  {
    if callback.Func? then [CallbackCall(callback.source, fetched)]
    else if Truthy(callback) then [Fault]
    else []
  }

  /**
   * A fetch `i` completed: the record settles, the controller tears down or
   * rebinds according to the new `nextHref`, and the callback receives the
   * target that was fetched.
   */
  function LoadSucceeded(c: Controller, i: nat, fragmentHref: Option<string>, bv: BindView): (o: Outcome)
    requires i < |c.pending|
    ensures var s := Settle(c, i, fragmentHref);
      o.ctrl == if s.record.Some? && Truthy(NextHref(s)) then Bind(s, bv).ctrl else Destroy(s)
    ensures c.config.callback.Func? ==>
      |o.effects| > 0 && o.effects[|o.effects| - 1] == CallbackCall(c.config.callback.source, c.pending[i])
    ensures !Truthy(c.config.callback) ==> forall e :: e in o.effects ==> !e.CallbackCall?
    ensures o.ctrl.pending == Remove(c.pending, i) + Fetches(o.effects)
    ensures !(c.record.Some? && Truthy(NextAfterLoad(fragmentHref, c.config.contentSelector))) ==>
      Fetches(o.effects) == [] && !o.ctrl.scrollBound
  {
    var s := Settle(c, i, fragmentHref);
    var o := CheckNextHref(s, bv);
    var tail := CallbackEffects(c.config.callback, c.pending[i]);
    FetchesAppend(o.effects, tail);
    assert o.ctrl.pending == s.pending + Fetches(o.effects);
    Outcome(o.ctrl, o.effects + tail)
  }

  /** A fetch `i` failed: the controller tears down; `nextHref` and `waiting` are left as they were. */
  function LoadFailed(c: Controller, i: nat): (o: Outcome)
    requires i < |c.pending|
    ensures o.effects == []
    ensures o.ctrl == Destroy(c.(pending := Remove(c.pending, i)))
    ensures o.ctrl.record.Some? ==> o.ctrl.record == c.record
  {
    Outcome(Destroy(c.(pending := Remove(c.pending, i))), [])
  }

  /**
   * The click handler: hides the next link (when its container can be
   * found) and loads, without looking at `waiting`.
   */
  function ClickNext(c: Controller, hidesLink: bool): (o: Outcome)
    ensures !c.clickArmed ==> o == Outcome(c, [])
    ensures c.clickArmed ==> o == Load(c.(clickArmed := !hidesLink))
  {
    if !c.clickArmed then Outcome(c, []) else Load(c.(clickArmed := !hidesLink))
  }

  // ---------------------------------------------------------------------
  // Events
  // ---------------------------------------------------------------------

  datatype Event =
    | Scroll(view: View)
    | LinkClick(hidesLink: bool)
    | FetchOk(index: nat, fragmentHref: Option<string>, rebind: BindView)
    | FetchErr(index: nat)
    | DestroyRequested

  /** A completion refers to a fetch that is in flight. */
  predicate Enabled(c: Controller, e: Event) {
    match e
    case FetchOk(i, _, _) => i < |c.pending|
    case FetchErr(i) => i < |c.pending|
    case _ => true
  }

  /** One handler run to completion. */
  function Step(c: Controller, e: Event): Outcome
    requires Enabled(c, e)
  {
    match e
    case Scroll(v) => if c.scrollBound then Observe(c, v) else Outcome(c, [])
    case LinkClick(h) => ClickNext(c, h)
    case FetchOk(i, href, bv) => LoadSucceeded(c, i, href, bv)
    case FetchErr(i) => LoadFailed(c, i)
    case DestroyRequested => Outcome(Destroy(c), [])
  }

  /**
   * Whether handling the event runs `_$scroll.unbind('.omscroll')`: every
   * teardown does (line 78), and so does every binding that finds a next link
   * (lines 131 and 138). When the window scrolls, that unbinding is on the
   * window itself.
   */
  predicate UnbindsRegion(c: Controller, e: Event) {
    match e
    case FetchOk(_, href, bv) => !(c.record.Some? && Truthy(NextAfterLoad(href, c.config.contentSelector))) || bv.linkPresent
    case FetchErr(_) => true
    case DestroyRequested => true
    case _ => false
  }

  /** An event that does not unbind the scrolling region leaves the scroll handler as it was. */
  lemma HandlerChangesOnlyWithUnbind(c: Controller, e: Event)
    requires Enabled(c, e) && !UnbindsRegion(c, e)
    ensures Step(c, e).ctrl.scrollBound == c.scrollBound
  {
    if e.FetchOk? {
      var s := Settle(c, e.index, e.fragmentHref);
      assert s.scrollBound == c.scrollBound;
    }
  }

  /** The fetches in flight before the event, less the one it completes. */
  function Carried(c: Controller, e: Event): seq<string>
    requires Enabled(c, e)
  {
    match e
    case FetchOk(i, _, _) => Remove(c.pending, i)
    case FetchErr(i) => Remove(c.pending, i)
    case _ => c.pending
  }

  /**
   * Every fetch is accounted for: after any event the fetches in flight are
   * those carried over plus those the event issued, so each completion
   * retires exactly one issued fetch.
   */
  lemma StepAccounting(c: Controller, e: Event)
    requires Enabled(c, e)
    ensures Step(c, e).ctrl.pending == Carried(c, e) + Fetches(Step(c, e).effects)
  {
  }

  // ---------------------------------------------------------------------
  // Activation
  // ---------------------------------------------------------------------

  /** What activation finds on one container. */
  datatype Container = Container(
    record: Option<Object>,  // its `omscroll` data record, if any
    isWindow: bool,  // its overflow-y is visible
    innerWrappers: nat,  // `.omscroll-inner` wrappers already inside it
    nextHref: Option<string>,  // the `href` of the first `nextSelector` match, if any
    bind: BindView)  // what the first `_setBindings` finds

  /** `data && data.initialized`: the guard of `$.fn.omscroll`. */
  predicate AlreadyActive(record: Option<Object>) {
    record.Some? && Truthy(Get(record.value, InitializedKey))
  }

  /** The prior record's defined keys. */
  function Prior(existing: Option<Object>): Object {
    Extend(map[], PriorOptions(existing))
  }

  /**
   * The fresh record: the prior record's keys with `initialized` set,
   * `waiting` cleared and `nextHref` the composed target.
   */
  function InitialRecord(existing: Option<Object>, target: string): (r: Object)
    ensures Get(r, InitializedKey) == Bool(true)
    ensures Get(r, WaitingKey) == Bool(false)
    ensures Get(r, NextHrefKey) == Str(target)
  {
    Prior(existing)[InitializedKey := Bool(true)][WaitingKey := Bool(false)][NextHrefKey := Str(target)]
  }

  /**
   * The fresh record is `$.extend({}, _data, {initialized: true, waiting:
   * false, nextHref: target})`, and it keeps every other defined key of the
   * prior record.
   */
  lemma InitialRecordIsExtend(existing: Option<Object>, target: string)
    ensures InitialRecord(existing, target) == Extend(Extend(map[], PriorOptions(existing)),
      map[InitializedKey := Bool(true), WaitingKey := Bool(false), NextHrefKey := Str(target)])
    ensures forall k :: Defined(PriorOptions(existing), k) && k != InitializedKey && k != WaitingKey && k != NextHrefKey ==>
      k in InitialRecord(existing, target) && InitialRecord(existing, target)[k] == PriorOptions(existing)[k]
  {
  }

  /** The constructor's state before `_setBindings`, given the resolved options. */
  function Start(box: Container, config: Config): Controller {
    Controller(
      config := config,
      isWindow := box.isWindow,
      record := Some(InitialRecord(box.record, Compose(box.nextHref, config.contentSelector))),
      innerWrappers := Wrap(box.innerWrappers),
      scrollBound := false,
      clickArmed := false,
      pending := [])
  }

  /**
   * `$(container).omscroll(arg)`: nothing when the container is already
   * active; otherwise the fresh controller and its first bindings.
   */
  function Attach(box: Container, arg: Arg): (r: Option<Outcome>)
    ensures r.None? <==> AlreadyActive(box.record)
    ensures r.Some? ==> r.value == Bind(Start(box, Resolve(MergeOptions(arg, box.record))), box.bind)
  {
    if AlreadyActive(box.record) then None else Some(Bind(Start(box, Resolve(MergeOptions(arg, box.record))), box.bind))
  }

  /**
   * After activation the record has `initialized` set, `nextHref` the
   * composed target, `waiting` set exactly when the bind-time check started a
   * fetch; the only fetch in flight
   * is the one activation issued, and nothing throws.
   */
  lemma AttachRecordContents(box: Container, arg: Arg)
    requires !AlreadyActive(box.record)
    ensures var o := Attach(box, arg).value;
      && o.ctrl.record.Some?
      && Fault !in o.effects
      && Get(o.ctrl.record.value, InitializedKey) == Bool(true)
      && NextHref(o.ctrl) == Str(Compose(box.nextHref, Resolve(MergeOptions(arg, box.record)).contentSelector))
      && Get(o.ctrl.record.value, WaitingKey) == Bool(Fetches(o.effects) != [])
      && o.ctrl.pending == Fetches(o.effects)
      && o.ctrl.innerWrappers >= 1
  {
    var c := Start(box, Resolve(MergeOptions(arg, box.record)));
    AttachRecord(c, box.bind);
  }

  /** How the first binding changes the fresh record: at most `waiting` is set, and only with a fetch. */
  lemma AttachRecord(c: Controller, bv: BindView)
    requires c.record.Some? && c.innerWrappers >= 1 && c.pending == []
    requires Get(c.record.value, WaitingKey) == Bool(false) && NextHref(c).Str?
    ensures var o := Bind(c, bv);
      && o.ctrl.record.Some?
      && Fault !in o.effects
      && o.ctrl.record.value == (if Fetches(o.effects) != [] then c.record.value[WaitingKey := Bool(true)] else c.record.value)
      && Get(o.ctrl.record.value, InitializedKey) == Get(c.record.value, InitializedKey)
      && NextHref(o.ctrl) == NextHref(c)
      && Get(o.ctrl.record.value, WaitingKey) == Bool(Fetches(o.effects) != [])
      && o.ctrl.pending == Fetches(o.effects)
      && o.ctrl.innerWrappers >= 1
  {
    var o := Bind(c, bv);
    if BindTriggers(c, bv) {
      var w := c.(innerWrappers := Wrap(c.innerWrappers));
      assert NextHref(w) == NextHref(c);
      assert Fetches(o.effects) == [NextHref(c).s];
    }
  }

  /**
   * Without a next link, activation neither tears down nor binds: the record
   * holds the truthy target `undefined…` and the controller stays idle.
   */
  lemma MissingLinkAtActivation(box: Container, arg: Arg) returns (c: Controller)
    requires !AlreadyActive(box.record) && box.nextHref.None? && !box.bind.linkPresent
    ensures Attach(box, arg) == Some(Outcome(c, []))
    ensures !c.scrollBound && !c.clickArmed && c.record.Some?
    ensures NextHref(c).Str? && |NextHref(c).s| >= 9 && NextHref(c).s[..9] == "undefined"
    ensures Truthy(NextHref(c))
  {
    var cfg := Resolve(MergeOptions(arg, box.record));
    ComposeMissingHref(cfg.contentSelector);
    c := Start(box, cfg);
    assert NextHref(c) == Str(Compose(None, cfg.contentSelector));
  }

  /** Activating an active container again changes nothing, whatever the argument. */
  lemma AttachTwiceIsNoOp(box: Container, arg: Arg, again: Arg)
    requires !AlreadyActive(box.record)
    ensures Attach(box.(record := Attach(box, arg).value.ctrl.record), again).None?
  {
    AttachInitializes(box, arg);
    AttachGuard(box.(record := Attach(box, arg).value.ctrl.record), again);
  }

  lemma AttachInitializes(box: Container, arg: Arg)
    requires !AlreadyActive(box.record)
    ensures AlreadyActive(Attach(box, arg).value.ctrl.record)
  {
    AttachRecordContents(box, arg);
  }

  lemma AttachGuard(box: Container, arg: Arg)
    requires AlreadyActive(box.record)
    ensures Attach(box, arg).None?
  {
  }

  // ---------------------------------------------------------------------
  // Invariants and the guards
  // ---------------------------------------------------------------------

  /**
   * A bound scroll handler implies an attached record, and an attached record
   * implies a wrapper.
   */
  predicate Inv(c: Controller) {
    && (c.scrollBound ==> c.record.Some?)
    && (c.record.Some? ==> c.innerWrappers >= 1)
  }

  lemma AttachEstablishesInv(box: Container, arg: Arg)
    requires !AlreadyActive(box.record)
    ensures Inv(Attach(box, arg).value.ctrl)
  {
  }

  /** Every event keeps the invariant. */
  lemma StepPreservesInv(c: Controller, e: Event)
    requires Inv(c) && Enabled(c, e)
    ensures Inv(Step(c, e).ctrl)
  {
    match e
    case FetchOk(i, href, bv) =>
      var s := Settle(c, i, href);
      assert Inv(s);
    case _ =>
  }

  /**
   * The options change only when a successful load rebinds, and then by one
   * countdown step.
   */
  lemma ConfigChangesOnlyOnRebind(c: Controller, e: Event)
    requires Enabled(c, e)
    ensures Step(c, e).ctrl.config == c.config || (e.FetchOk? && Step(c, e).ctrl.config == AfterBind(c.config))
  {
    if e.FetchOk? {
      var s := Settle(c, e.index, e.fragmentHref);
      assert s.config == c.config;
    }
  }

  /** Under the invariant a scroll event never throws: the handler only exists while the record does. */
  lemma ScrollNeverFaults(c: Controller, v: View)
    requires Inv(c)
    ensures Fault !in Step(c, Scroll(v)).effects
  {
  }

  /** A scroll evaluation fetches only when all three conditions hold. */
  lemma ScrollFetchNeedsAllThree(c: Controller, v: View)
    requires Fetches(Step(c, Scroll(v)).effects) != []
    ensures c.scrollBound && v.visible && !Waiting(c) && Reached(v.geometry, c.config.padding)
  {
  }

  /**
   * The click path has no `waiting` guard: with a fetch already in flight and
   * the record waiting, a click on an armed link issues a second fetch of the
   * same target.
   */
  lemma ClickIgnoresWaiting(c: Controller, hidesLink: bool)
    requires c.clickArmed && Waiting(c) && c.pending != []
    requires c.innerWrappers >= 1 && NextHref(c).Str?
    ensures Fetches(Step(c, LinkClick(hidesLink)).effects) == [NextHref(c).s]
    ensures |Step(c, LinkClick(hidesLink)).ctrl.pending| == |c.pending| + 1
  {
  }

  /**
   * Teardown does not unbind the link's click handler: after the record of a
   * container that scrolls itself is removed, a click throws.
   */
  lemma ClickAfterDestroyFaults(c: Controller, hidesLink: bool)
    requires c.clickArmed && !c.isWindow
    ensures Step(Destroy(c), LinkClick(hidesLink)).effects == [Fault]
  {
  }

  /**
   * When the window scrolls, teardown leaves the record in place, so the
   * container can never be activated again.
   */
  lemma WindowTeardownKeepsGuard(c: Controller, box: Container, arg: Arg)
    requires c.isWindow && AlreadyActive(c.record)
    ensures Attach(box.(record := Destroy(c).record), arg).None?
  {
  }

  // ---------------------------------------------------------------------
  // A worked scenario
  // ---------------------------------------------------------------------

  /** Options naming content selector `.body` and a callback. */
  function PageTwoArg(cb: string): Arg {
    Settings(map["contentSelector" := Str(".body"), "callback" := Func(cb)])
  }

  lemma PageTwoConfig(cb: string)
    ensures Resolve(MergeOptions(PageTwoArg(cb), None)) == Config(true, Unlimited, Num(0), ".body", Func(cb))
  {
    var arg := PageTwoArg(cb);
    DefaultConfig();
    GivenValue(arg, "contentSelector", Str(".body"));
    GivenValue(arg, "callback", Func(cb));
    UnsetAsDefault(arg, "autoTrigger");
    UnsetAsDefault(arg, "autoTriggerUntil");
    UnsetAsDefault(arg, "padding");
  }

  lemma PageTwoTarget()
    ensures Compose(Some("/page/2"), ".body") == "/page/2 .body"
  {
    ComposeClean("/page/2", ".body");
    assert "/page/2" + " " + ".body" == "/page/2 .body";
  }

  /** Activation on a fresh container whose next link is `/page/2` and whose content does not fit yet. */
  lemma PageTwoAttach(box: Container, cb: string) returns (c: Controller)
    requires box.record.None? && box.nextHref == Some("/page/2")
    requires box.bind.linkPresent && !box.bind.fits
    ensures Attach(box, PageTwoArg(cb)) == Some(Outcome(c, []))
    ensures c.record.Some? && !Waiting(c) && c.scrollBound && c.innerWrappers >= 1
    ensures c.pending == [] && c.isWindow == box.isWindow
    ensures NextHref(c) == Str("/page/2 .body")
    ensures c.config == Config(true, Unlimited, Num(0), ".body", Func(cb))
  {
    var cfg := Config(true, Unlimited, Num(0), ".body", Func(cb));
    PageTwoConfig(cb);
    var s := Start(box, cfg);
    PageTwoTarget();
    assert NextHref(s) == Str("/page/2 .body");
    BindWithoutFit(s, box.bind);
    c := s.(scrollBound := true);
  }

  /** Scrolling to the threshold fetches the composed target once. */
  lemma PageTwoScroll(c: Controller, v: View) returns (d: Controller)
    requires c.record.Some? && !Waiting(c) && c.scrollBound && c.innerWrappers >= 1 && c.pending == []
    requires NextHref(c) == Str("/page/2 .body") && c.config.padding == Num(0)
    requires v.visible && Reached(v.geometry, Num(0))
    ensures Step(c, Scroll(v)) == Outcome(d, [Fetch("/page/2 .body")])
    ensures d.record.Some? && Waiting(d) && d.pending == ["/page/2 .body"]
    ensures d.config == c.config && d.isWindow == c.isWindow
  {
    d := Step(c, Scroll(v)).ctrl;
  }

  /** A fragment without a next link ends paging; the callback gets the fetched target. */
  lemma PageTwoLastPage(c: Controller, cb: string, bv: BindView)
    requires c.record.Some? && !c.isWindow && c.pending == ["/page/2 .body"] && c.config.callback == Func(cb)
    ensures Step(c, FetchOk(0, None, bv)).effects == [CallbackCall(cb, "/page/2 .body")]
    ensures var d := Step(c, FetchOk(0, None, bv)).ctrl;
      d.record.None? && !d.scrollBound && d.innerWrappers == 0 && d.pending == []
  {
  }

  /**
   * The scenario of a next link `/page/2` with content selector `.body`:
   * activation composes `/page/2 .body`; scrolling to the threshold fetches
   * it; a fragment without a next link then tears the controller down after
   * that single load, and the callback receives `/page/2 .body`.
   */
  lemma PageTwoScenario(box: Container, v: View, bv: BindView, cb: string)
    requires box.record.None? && !box.isWindow && box.nextHref == Some("/page/2")
    requires box.bind.linkPresent && !box.bind.fits
    requires v.visible && Reached(v.geometry, Num(0))
    ensures var a := Attach(box, PageTwoArg(cb));
      && a.Some? && a.value.effects == []
      && NextHref(a.value.ctrl) == Str("/page/2 .body")
      && var s := Step(a.value.ctrl, Scroll(v));
      && s.effects == [Fetch("/page/2 .body")]
      && var f := Step(s.ctrl, FetchOk(0, None, bv));
      && f.effects == [CallbackCall(cb, "/page/2 .body")]
      && f.ctrl.record.None? && !f.ctrl.scrollBound && f.ctrl.innerWrappers == 0 && f.ctrl.pending == []
  {
    var c := PageTwoAttach(box, cb);
    var d := PageTwoScroll(c, v);
    PageTwoLastPage(d, cb, bv);
  }
}
