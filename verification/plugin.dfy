/**
 * The jQuery entry point `$.fn.omscroll` applied to a set of containers, and
 * the `destroy` handle each activation publishes.
 */
module Plugin {
  import opened Wrappers
  import opened Options
  import opened Paging

  /** Whether activation constructs a controller on the container. */
  predicate Activates(box: Container) {
    !AlreadyActive(box.record)
  }

  /**
   * The index of the last container in the set that activation constructs a
   * controller on: the instance whose `destroy` the shared handle ends up
   * holding. `None` means the call constructs nothing, so the handle keeps
   * whatever an earlier call left in it.
   */
  function LastActivated(boxes: seq<Container>): (r: Option<nat>)
    ensures r.None? <==> forall i :: 0 <= i < |boxes| ==> !Activates(boxes[i])
    ensures r.Some? ==> r.value < |boxes| && Activates(boxes[r.value])
    ensures r.Some? ==> forall j :: r.value < j < |boxes| ==> !Activates(boxes[j])
  {
    if boxes == [] then None
    else if Activates(boxes[|boxes| - 1]) then Some(|boxes| - 1)
    else LastActivated(boxes[..|boxes| - 1])
  }

  /**
   * Activation of the container binds on the window: it constructs a
   * controller, the window scrolls the container, and the first
   * `_setBindings` finds a next link, so it runs
   * `_$scroll.unbind('.omscroll')` on the window (lines 131 and 138).
   */
  predicate BindsWindow(box: Container) {
    Activates(box) && box.isWindow && box.bind.linkPresent
  }

  /** Some container in the set binds on the window. */
  predicate SetBindsWindow(boxes: seq<Container>) {
    exists j :: 0 <= j < |boxes| && BindsWindow(boxes[j])
  }

  /** A container after `i` in the set binds on the window. */
  predicate WindowReboundAfter(boxes: seq<Container>, i: nat) {
    exists j :: i < j < |boxes| && BindsWindow(boxes[j])
  }

  /** An activation outcome whose scroll handler a later unbinding removed. */
  function Unhooked(a: Option<Outcome>): (r: Option<Outcome>)
    ensures r.None? <==> a.None?
    ensures a.Some? ==> !r.value.ctrl.scrollBound && r.value.effects == a.value.effects
    ensures a.Some? ==> r.value.ctrl.(scrollBound := a.value.ctrl.scrollBound) == a.value.ctrl
  {
    match a
    case None => None
    case Some(o) => Some(o.(ctrl := o.ctrl.(scrollBound := false)))
  }

  /**
   * `$(set).omscroll(arg)`: every container in the set is visited in order;
   * the already active ones are skipped and the others get a controller. A
   * container the window scrolls loses its scroll handler when a later one
   * binds on the window, and so does every controller already running,
   * `running`, that the window scrolls (skipped ones in the set included).
   * The shared `destroy` handle is left holding the last constructed
   * instance.
   */
  method AttachEach(boxes: seq<Container>, arg: Arg, running: seq<Controller>)
    returns (outs: seq<Option<Outcome>>, exposed: Option<nat>, after: seq<Controller>)
    ensures |after| == |running|
    ensures forall k :: 0 <= k < |running| ==> after[k].(scrollBound := running[k].scrollBound) == running[k]
    ensures forall k :: 0 <= k < |running| ==>
      (after[k].scrollBound <==> running[k].scrollBound && !(running[k].isWindow && SetBindsWindow(boxes)))
    ensures |outs| == |boxes|
    ensures forall i :: 0 <= i < |boxes| && !(boxes[i].isWindow && WindowReboundAfter(boxes, i)) ==>
      outs[i] == Attach(boxes[i], arg)
    ensures forall i :: 0 <= i < |boxes| && boxes[i].isWindow && WindowReboundAfter(boxes, i) ==>
      outs[i] == Unhooked(Attach(boxes[i], arg))
    ensures exposed == LastActivated(boxes)
    ensures exposed.None? <==> forall i :: 0 <= i < |boxes| ==> outs[i].None?
  {
    exposed := None;
    var i := 0;
    while i < |boxes|
      invariant 0 <= i <= |boxes|
      invariant exposed == LastActivated(boxes[..i])
    {
      LastActivatedStep(boxes, i);
      if Activates(boxes[i]) {
        exposed := Some(i);
      }
      i := i + 1;
    }
    assert boxes[..i] == boxes;
    outs := seq(|boxes|, k requires 0 <= k < |boxes| =>
      if boxes[k].isWindow && WindowReboundAfter(boxes, k) then Unhooked(Attach(boxes[k], arg)) else Attach(boxes[k], arg));
    after := seq(|running|, k requires 0 <= k < |running| =>
      if running[k].isWindow && SetBindsWindow(boxes) then running[k].(scrollBound := false) else running[k]);
  }

  lemma LastActivatedStep(boxes: seq<Container>, i: nat)
    requires i < |boxes|
    ensures LastActivated(boxes[..i + 1]) == if Activates(boxes[i]) then Some(i) else LastActivated(boxes[..i])
  {
    assert boxes[..i + 1][..i] == boxes[..i];
  }

  /**
   * The controllers after the handler of controller `i` ran and left `next`.
   * When that handler unbound `.omscroll` from the window, every other
   * controller the window scrolls lost its scroll handler with it; nothing
   * else of another controller changes.
   */
  function AfterHandler(ctrls: seq<Controller>, i: nat, next: Controller, unbinds: bool): (r: seq<Controller>)
    requires i < |ctrls|
    ensures |r| == |ctrls| && r[i] == next
    ensures forall j :: 0 <= j < |ctrls| && j != i ==> r[j].(scrollBound := ctrls[j].scrollBound) == ctrls[j]
    ensures forall j :: 0 <= j < |ctrls| && j != i ==>
      (r[j].scrollBound <==> ctrls[j].scrollBound && !(unbinds && ctrls[i].isWindow && ctrls[j].isWindow))
  {
    seq(|ctrls|, j requires 0 <= j < |ctrls| =>
      if j == i then next
      else if unbinds && ctrls[i].isWindow && ctrls[j].isWindow then ctrls[j].(scrollBound := false)
      else ctrls[j])
  }

  /**
   * `$(container).omscroll.destroy()` as written: `$.extend($e.omscroll, …)`
   * writes onto the plugin function every jQuery object shares, so the
   * handle runs the teardown of the instance it holds, whichever container
   * it is read from. `exposed` is that instance: the last one constructed
   * by any call; a call that constructs nothing leaves it as it was. Before
   * any activation at all the handle is `undefined` and calling it throws
   * (`None`).
   */
  function SharedHandleDestroy(ctrls: seq<Controller>, exposed: Option<nat>, caller: nat): (r: Option<seq<Controller>>)
    requires caller < |ctrls|
    requires exposed.Some? ==> exposed.value < |ctrls|
    ensures r.None? <==> exposed.None?
    ensures r.Some? ==> |r.value| == |ctrls| && r.value[exposed.value] == Destroy(ctrls[exposed.value])
    ensures r.Some? ==> forall j :: 0 <= j < |ctrls| && j != exposed.value ==>
      r.value[j].(scrollBound := ctrls[j].scrollBound) == ctrls[j]
    ensures r.Some? ==> forall j :: 0 <= j < |ctrls| && j != exposed.value ==>
      (r.value[j].scrollBound <==> ctrls[j].scrollBound && !(ctrls[exposed.value].isWindow && ctrls[j].isWindow))
  {
    match exposed
    case None => None
    case Some(x) => Some(AfterHandler(ctrls, x, Destroy(ctrls[x]), true))
  }

  /**
   * A `destroy` scoped to the container it is read from: that container's
   * controller is torn down. Another controller is touched only when both
   * are scrolled by the window, whose `.omscroll` handlers all go.
   */
  function OwnHandleDestroy(ctrls: seq<Controller>, caller: nat): (r: seq<Controller>)
    requires caller < |ctrls|
    ensures |r| == |ctrls| && r[caller] == Destroy(ctrls[caller])
    ensures forall j :: 0 <= j < |ctrls| && j != caller ==> r[j].(scrollBound := ctrls[j].scrollBound) == ctrls[j]
    ensures forall j :: 0 <= j < |ctrls| && j != caller ==>
      (r[j].scrollBound <==> ctrls[j].scrollBound && !(ctrls[caller].isWindow && ctrls[j].isWindow))
  {
    AfterHandler(ctrls, caller, Destroy(ctrls[caller]), true)
  }

  /**
   * An event delivered to the controller of container `i`. Another
   * controller changes only when both are scrolled by the window and the
   * handler unbinds the window's `.omscroll` handlers; then it loses its
   * scroll handler and nothing else.
   */
  function PageStep(ctrls: seq<Controller>, i: nat, e: Event): (r: seq<Controller>)
    requires i < |ctrls| && Enabled(ctrls[i], e)
    ensures |r| == |ctrls| && r[i] == Step(ctrls[i], e).ctrl
    ensures forall j :: 0 <= j < |ctrls| && j != i ==> r[j].(scrollBound := ctrls[j].scrollBound) == ctrls[j]
    ensures forall j :: 0 <= j < |ctrls| && j != i ==>
      (r[j].scrollBound <==> ctrls[j].scrollBound && !(UnbindsRegion(ctrls[i], e) && ctrls[i].isWindow && ctrls[j].isWindow))
  {
    AfterHandler(ctrls, i, Step(ctrls[i], e).ctrl, UnbindsRegion(ctrls[i], e))
  }

  /**
   * The scoped handle is the teardown event of the container's own
   * controller, and it is idempotent.
   */
  lemma OwnHandleIsDestroyEvent(ctrls: seq<Controller>, caller: nat)
    requires caller < |ctrls|
    ensures OwnHandleDestroy(ctrls, caller) == PageStep(ctrls, caller, DestroyRequested)
    ensures OwnHandleDestroy(OwnHandleDestroy(ctrls, caller), caller) == OwnHandleDestroy(ctrls, caller)
  {
    var r := OwnHandleDestroy(ctrls, caller);
    var r2 := OwnHandleDestroy(r, caller);
    DestroyIdempotent(ctrls[caller]);
    forall j | 0 <= j < |ctrls|
      ensures r2[j] == r[j]
    {
      if j != caller {
        assert r2[j] == r2[j].(scrollBound := r[j].scrollBound);
      }
    }
  }

  /** A container that scrolls itself is independent: its events change no other controller. */
  lemma OwnScrollIsIndependent(ctrls: seq<Controller>, i: nat, e: Event)
    requires i < |ctrls| && Enabled(ctrls[i], e) && !ctrls[i].isWindow
    ensures forall j :: 0 <= j < |ctrls| && j != i ==> PageStep(ctrls, i, e)[j] == ctrls[j]
  {
    var r := PageStep(ctrls, i, e);
    forall j | 0 <= j < |ctrls| && j != i
      ensures r[j] == ctrls[j]
    {
      assert r[j] == r[j].(scrollBound := ctrls[j].scrollBound);
    }
  }

  /** The window is shared: the teardown of one window-scrolled controller unbinds every other one. */
  lemma SharedWindowTeardown(ctrls: seq<Controller>, i: nat, j: nat)
    requires i < |ctrls| && j < |ctrls| && i != j
    requires ctrls[i].isWindow && ctrls[j].isWindow
    ensures !PageStep(ctrls, i, DestroyRequested)[j].scrollBound
    ensures !PageStep(ctrls, j, DestroyRequested)[i].scrollBound
  {
  }

  /** Every event keeps the invariant of every controller in the set. */
  lemma PageStepPreservesInv(ctrls: seq<Controller>, i: nat, e: Event)
    requires i < |ctrls| && Enabled(ctrls[i], e)
    requires forall j :: 0 <= j < |ctrls| ==> Inv(ctrls[j])
    ensures forall j :: 0 <= j < |ctrls| ==> Inv(PageStep(ctrls, i, e)[j])
  {
    StepPreservesInv(ctrls[i], e);
  }

  /**
   * Two fresh containers activated together, the first scrolling itself: the
   * handle read from the first one tears down the second, and the first
   * keeps its scroll handler and its record; the scoped handle tears the
   * first one down.
   */
  lemma SharedHandleMisdirects(a: Container, b: Container, ctrls: seq<Controller>)
    requires Activates(a) && Activates(b)
    requires |ctrls| == 2 && ctrls[0].scrollBound && !ctrls[0].isWindow
    ensures LastActivated([a, b]) == Some(1)
    ensures var r := SharedHandleDestroy(ctrls, LastActivated([a, b]), 0);
      r.Some? && r.value[0] == ctrls[0] && r.value[0].scrollBound && r.value[1] == Destroy(ctrls[1])
    ensures !OwnHandleDestroy(ctrls, 0)[0].scrollBound && OwnHandleDestroy(ctrls, 0)[0].record.None?
  {
    var r := SharedHandleDestroy(ctrls, Some(1), 0).value;
    assert r[0] == r[0].(scrollBound := ctrls[0].scrollBound);
  }
}
