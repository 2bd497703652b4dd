/**
 * Option resolution for one activation: the defaults, the caller's argument
 * and the container's existing data record merged with `$.extend`, and the
 * typed reading of the keys the paging controller consults, including the
 * `autoTriggerUntil` allowance that each auto-mode binding uses up.
 */
module Options {
  import opened Wrappers
  import opened JsValues

  /** `$.omscroll.defaults`. */
  const Defaults: Object := map[
    "debug" := Bool(false),
    "autoTrigger" := Bool(true),
    "autoTriggerUntil" := Bool(false),
    "loadingHtml" := Str("<small>Loading...</small>"),
    "loadingFunction" := Bool(false),
    "padding" := Num(0),
    "nextSelector" := Str("a:last"),
    "contentSelector" := Str(""),
    "pagingSelector" := Str(""),
    "callback" := Bool(false),
    "wrapperClass" := Str("clearfix")
  ]

  /** The argument of `$(selector).omscroll(arg)`. */
  datatype Arg =
    | Settings(options: Object)  // an options object
    | CallbackOnly(source: string)  // a bare function
    | NoArg  // `undefined` or `null`, which `$.extend` skips

  /** The caller's options: a bare function is shorthand for `{callback: fn}`. */
  function UserOptions(arg: Arg): Object {
    match arg
    case Settings(o) => o
    case CallbackOnly(src) => map["callback" := Func(src)]
    case NoArg => map[]
  }

  /** The existing record as an option source; `_data || {}`. */
  function PriorOptions(existing: Option<Object>): Object {
    existing.GetOr(map[])
  }

  /**
   * The value of `key` in the last of `base`, `over`, `top` that defines it.
   */
  function LastDefining(base: Object, over: Object, top: Object, key: string): Value {
    if Defined(top, key) then top[key]
    else if Defined(over, key) then over[key]
    else Get(base, key)
  }

  /**
   * Three sources merged: a key is present when any of them defines it, and
   * its value comes from the last source that defines it.
   */
  function Merge(base: Object, over: Object, top: Object): (r: Object)
    ensures forall k :: k in r <==> k in base || Defined(over, k) || Defined(top, k)
    ensures forall k :: k in r ==> r[k] == LastDefining(base, over, top, k)
  {
    map k | k in base.Keys + DefinedKeys(over) + DefinedKeys(top) :: LastDefining(base, over, top, k)
  }

  /**
   * `$.extend({}, base, over, top)` is the last-defining-source merge, when
   * `base` holds no `undefined`.
   */
  lemma MergeIsExtendChain(base: Object, over: Object, top: Object)
    requires forall k :: k in base ==> base[k] != Undefined
    ensures Merge(base, over, top) == Extend(Extend(Extend(map[], base), over), top)
  {
    ExtendFromEmpty(base);
    var e := Extend(Extend(base, over), top);
    var r := Merge(base, over, top);
    assert r.Keys == e.Keys;
  }

  /**
   * The resolved options, `$.extend({}, defaults, userOptions, existingRecord || {})`:
   * every default key is present, and each key's value comes from the last
   * source that defines it, in the order defaults, caller, existing record.
   */
  function MergeOptions(arg: Arg, existing: Option<Object>): (r: Object)
    ensures forall k :: k in r <==> k in Defaults || Defined(UserOptions(arg), k) || Defined(PriorOptions(existing), k)
    ensures forall k :: k in r ==> r[k] == LastDefining(Defaults, UserOptions(arg), PriorOptions(existing), k)
  {
    Merge(Defaults, UserOptions(arg), PriorOptions(existing))
  }

  /** The merged options are the source's `$.extend` chain, and none of them is `undefined`. */
  lemma MergeOptionsIsExtend(arg: Arg, existing: Option<Object>)
    ensures MergeOptions(arg, existing)
      == Extend(Extend(Extend(map[], Defaults), UserOptions(arg)), PriorOptions(existing))
    ensures forall k :: k in MergeOptions(arg, existing) ==> MergeOptions(arg, existing)[k] != Undefined
  {
    DefaultsDefined();
    MergeIsExtendChain(Defaults, UserOptions(arg), PriorOptions(existing));
  }

  /** No default is `undefined`. */
  lemma DefaultsDefined()
    ensures forall k :: k in Defaults ==> Defaults[k] != Undefined
  {
  }

  /** Extending an empty object by one without `undefined` values copies it. */
  lemma ExtendFromEmpty(o: Object)
    requires forall k :: k in o ==> o[k] != Undefined
    ensures Extend(map[], o) == o
  {
  }

  /**
   * A bare function merges exactly like `{callback: fn}`, and ends up as the
   * callback unless the existing record names one.
   */
  lemma CallbackShorthand(source: string, existing: Option<Object>)
    ensures !Defined(PriorOptions(existing), "callback") ==>
      Get(MergeOptions(CallbackOnly(source), existing), "callback") == Func(source)
    ensures MergeOptions(CallbackOnly(source), existing) == MergeOptions(Settings(map["callback" := Func(source)]), existing)
  {
    var r := MergeOptions(CallbackOnly(source), existing);
    assert r == Merge(Defaults, UserOptions(CallbackOnly(source)), PriorOptions(existing));
    assert "callback" in r;
  }

  /** With no argument and no record, the merged options are the defaults. */
  lemma NothingGivenIsDefaults()
    ensures MergeOptions(NoArg, None) == Defaults
  {
    var r := MergeOptions(NoArg, None);
    assert r.Keys == Defaults.Keys;
  }

  // ---------------------------------------------------------------------
  // The typed view of the merged options
  // ---------------------------------------------------------------------

  /**
   * `autoTriggerUntil`: `false` (no limit) or the number of auto-mode
   * bindings left. Any other JavaScript value behaves like the number
   * ToNumber gives it, NaN like zero.
   */
  datatype Until = Unlimited | Remaining(count: int)

  /**
   * The reading of an `autoTriggerUntil` value under the source's two tests,
   * `v === false` and `v > 0`.
   */
  function ResolveUntil(v: Value): (u: Until)
    ensures u.Unlimited? <==> v == Bool(false)
    ensures u.Remaining? ==> (u.count > 0 <==> ToNumber(v).Some? && ToNumber(v).value > 0)
  {
    if v == Bool(false) then Unlimited
    else Remaining(ToNumber(v).GetOr(0))
  }

  /** What the controller reads from its merged options. */
  datatype Config = Config(
    autoTrigger: bool,
    until: Until,
    padding: Value,
    contentSelector: string,
    callback: Value)

  function Resolve(opts: Object): Config {
    Config(
      autoTrigger := Truthy(Get(opts, "autoTrigger")),
      until := ResolveUntil(Get(opts, "autoTriggerUntil")),
      padding := Get(opts, "padding"),
      contentSelector := JsString(Get(opts, "contentSelector")),
      callback := Get(opts, "callback"))
  }

  /** The defaults auto-trigger without limit, add no padding and name no content selector or callback. */
  lemma DefaultConfig()
    ensures Resolve(MergeOptions(NoArg, None)) == Config(true, Unlimited, Num(0), "", Bool(false))
  {
    DefaultValue("autoTrigger", Bool(true));
    DefaultValue("autoTriggerUntil", Bool(false));
    DefaultValue("padding", Num(0));
    DefaultValue("contentSelector", Str(""));
    DefaultValue("callback", Bool(false));
  }

  lemma DefaultValue(key: string, v: Value)
    requires key in Defaults && Defaults[key] == v
    ensures Get(MergeOptions(NoArg, None), key) == v
  {
  }

  lemma GivenValue(arg: Arg, key: string, v: Value)
    requires Defined(UserOptions(arg), key) && UserOptions(arg)[key] == v
    ensures Get(MergeOptions(arg, None), key) == v
  {
  }

  lemma UnsetAsDefault(arg: Arg, key: string)
    requires !Defined(UserOptions(arg), key)
    ensures Get(MergeOptions(arg, None), key) == Get(MergeOptions(NoArg, None), key)
  {
  }

  // ---------------------------------------------------------------------
  // Binding mode and the countdown
  // ---------------------------------------------------------------------

  datatype Mode = Auto | ClickToLoad

  /**
   * `_setBindings`' choice: auto mode when `autoTrigger` is truthy and the
   * allowance is unlimited or still positive.
   */
  function ChooseMode(cfg: Config): (m: Mode)
    ensures m == Auto <==> cfg.autoTrigger && (cfg.until.Unlimited? || cfg.until.count > 0)
  {
    if cfg.autoTrigger && (cfg.until.Unlimited? || cfg.until.count > 0) then Auto else ClickToLoad
  }

  /**
   * The options after one binding: an auto-mode binding uses up exactly one
   * unit of a positive allowance; `false` never changes; a click-mode binding
   * changes nothing.
   */
  function AfterBind(cfg: Config): (r: Config)
    ensures r.autoTrigger == cfg.autoTrigger && r.padding == cfg.padding
    ensures r.contentSelector == cfg.contentSelector && r.callback == cfg.callback
    ensures cfg.until.Unlimited? ==> r.until == Unlimited
    ensures ChooseMode(cfg) == Auto && cfg.until.Remaining? ==> r.until == Remaining(cfg.until.count - 1)
    ensures ChooseMode(cfg) == ClickToLoad ==> r == cfg
  {
    if ChooseMode(cfg) == Auto && cfg.until.Remaining? && cfg.until.count > 0 then
      cfg.(until := Remaining(cfg.until.count - 1))
    else cfg
  }

  /** The modes of `k` successive bindings (each finding a next link), starting from `cfg`. */
  function Modes(cfg: Config, k: nat): (ms: seq<Mode>)
    ensures |ms| == k
    decreases k
  {
    if k == 0 then [] else [ChooseMode(cfg)] + Modes(AfterBind(cfg), k - 1)
  }

  /** The mode of the binding numbered `j` (from 0) as the options describe it. */
  function ExpectedMode(cfg: Config, j: nat): Mode {
    if !cfg.autoTrigger then ClickToLoad
    else match cfg.until
      case Unlimited => Auto
      case Remaining(n) => if j < n then Auto else ClickToLoad
  }

  /**
   * From an allowance of N, exactly the first N bindings are auto and every
   * later one waits for a click; without a limit every binding is auto; with
   * `autoTrigger` off every binding is click mode.
   */
  lemma {:induction false} CountdownModes(cfg: Config, k: nat)
    ensures forall j :: 0 <= j < k ==> Modes(cfg, k)[j] == ExpectedMode(cfg, j)
    decreases k
  {
    if k > 0 {
      CountdownModes(AfterBind(cfg), k - 1);
      forall j | 0 <= j < k ensures Modes(cfg, k)[j] == ExpectedMode(cfg, j) {
        if j > 0 {
          assert Modes(cfg, k)[j] == Modes(AfterBind(cfg), k - 1)[j - 1];
        }
      }
    }
  }

  /** Once a binding has fallen back to click mode, every later binding does too. */
  lemma {:induction false} ClickModeIsFinal(cfg: Config, k: nat)
    requires ChooseMode(cfg) == ClickToLoad
    ensures forall j :: 0 <= j < k ==> Modes(cfg, k)[j] == ClickToLoad
    decreases k
  {
    if k > 0 {
      ClickModeIsFinal(AfterBind(cfg), k - 1);
      forall j | 0 <= j < k ensures Modes(cfg, k)[j] == ClickToLoad {
        if j > 0 {
          assert Modes(cfg, k)[j] == Modes(AfterBind(cfg), k - 1)[j - 1];
        }
      }
    }
  }
}
