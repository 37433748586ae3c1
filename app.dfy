/**
 * The application loop: the global `buttons` array, `setupButtons` filling it
 * in place, and one pass of the poll loop, which scans the six buttons in
 * order and calls `send_keyboard_key(0, key_code)` for every button whose
 * rectangle holds the touch. There is no debounce state: every pass with
 * contact inside a button dispatches again.
 */
module App {
  import opened Types
  import opened Hid
  import opened Layout

  /** A touch sample as the controller reports it. */
  datatype Touch = Touch(x: u16, y: u16)

  /**
   * The indices the scan visits with a hit, in scan order: exactly the
   * buttons whose rectangle holds `(tx, ty)`, each once, ascending.
   */
  function Selected(bs: seq<TouchButton>, tx: int, ty: int): (r: seq<nat>)
    ensures forall k :: 0 <= k < |r| ==> r[k] < |bs| && Hit(bs[r[k]], tx, ty)
    ensures forall i :: 0 <= i < |bs| && Hit(bs[i], tx, ty) ==> i in r
    ensures forall k, l :: 0 <= k < l < |r| ==> r[k] < r[l]
    decreases |bs|
  {
    if |bs| == 0 then []
    else
      var n := |bs| - 1;
      Selected(bs[..n], tx, ty) + (if Hit(bs[n], tx, ty) then [n] else [])
  }

  /**
   * The `send_keyboard_key` calls a scan of `bs` makes for the touch `(tx, ty)`,
   * in scan order: at most one per button, each with modifier 0.
   */
  function ScanCalls(bs: seq<TouchButton>, tx: int, ty: int): (r: seq<KeyCall>)
    ensures |r| <= |bs|
    ensures forall k :: 0 <= k < |r| ==> r[k].modifier == 0
    decreases |bs|
  {
    if |bs| == 0 then []
    else
      var n := |bs| - 1;
      ScanCalls(bs[..n], tx, ty) + (if Hit(bs[n], tx, ty) then [KeyCall(0, bs[n].keyCode)] else [])
  }

  /** The `send_keyboard_key` calls one pass of the loop makes: none without contact. */
  function Calls(bs: seq<TouchButton>, touch: Option<Touch>): (r: seq<KeyCall>)
    ensures touch.None? ==> r == []
    ensures |r| <= |bs|
    ensures forall k :: 0 <= k < |r| ==> r[k].modifier == 0
  {
    match touch
    case None => []
    case Some(t) => ScanCalls(bs, t.x, t.y)
  }

  /** Scanning one more button adds that button's call when it holds the touch, and nothing otherwise. */
  lemma CallsSnoc(bs: seq<TouchButton>, i: nat, t: Touch)
    requires i < |bs|
    ensures Calls(bs[..i + 1], Some(t))
      == Calls(bs[..i], Some(t)) + (if Hit(bs[i], t.x, t.y) then [KeyCall(0, bs[i].keyCode)] else [])
  {
    assert bs[..i + 1][..i] == bs[..i];
  }

  /**
   * Scanning one more button, after whatever `log` already holds, appends
   * that button's `send_keyboard_key` reports when it holds the touch, and
   * nothing otherwise.
   */
  lemma ScanStep(bs: seq<TouchButton>, i: nat, t: Touch, ready: bool, log: seq<KeyboardReport>)
    requires i < |bs|
    ensures log + Transmit(Calls(bs[..i + 1], Some(t)), ready)
      == (log + Transmit(Calls(bs[..i], Some(t)), ready))
         + (if Hit(bs[i], t.x, t.y) then Transmit([KeyCall(0, bs[i].keyCode)], ready) else [])
  {
    CallsSnoc(bs, i, t);
    var before := Calls(bs[..i], Some(t));
    if Hit(bs[i], t.x, t.y) {
      var call := KeyCall(0, bs[i].keyCode);
      TransmitSnoc(before, call, ready);
      var sent, added := Transmit(before, ready), Transmit([call], ready);
      assert log + (sent + added) == (log + sent) + added;
    } else {
      assert Calls(bs[..i + 1], Some(t)) == before;
    }
  }

  /**
   * The scan sends, in order, modifier 0 and the key code of each selected
   * button, and nothing else.
   */
  lemma {:induction false} ScanCallsFollowSelection(bs: seq<TouchButton>, tx: int, ty: int)
    ensures var sel := Selected(bs, tx, ty);
      |ScanCalls(bs, tx, ty)| == |sel| &&
      forall k :: 0 <= k < |sel| ==> ScanCalls(bs, tx, ty)[k] == KeyCall(0, bs[sel[k]].keyCode)
    decreases |bs|
  {
    if |bs| > 0 {
      var n := |bs| - 1;
      ScanCallsFollowSelection(bs[..n], tx, ty);
      assert forall j :: 0 <= j < n ==> bs[..n][j] == bs[j];
    }
  }

  /**
   * The reports a run of passes hands to the USB stack, one touch sample per
   * pass; nothing at all while not ready.
   */
  function Session(bs: seq<TouchButton>, touches: seq<Option<Touch>>, ready: bool): (r: seq<KeyboardReport>)
    ensures !ready ==> r == []
  {
    if |touches| == 0 then []
    else Session(bs, touches[..|touches| - 1], ready) + Transmit(Calls(bs, touches[|touches| - 1]), ready)
  }

  /** One more pass appends that pass's reports to the run's, after whatever `log` already holds. */
  lemma SessionSnoc(bs: seq<TouchButton>, touches: seq<Option<Touch>>, n: nat, ready: bool, log: seq<KeyboardReport>)
    requires n < |touches|
    ensures log + Session(bs, touches[..n + 1], ready)
      == (log + Session(bs, touches[..n], ready)) + Transmit(Calls(bs, touches[n]), ready)
  {
    assert touches[..n + 1][..n] == touches[..n];
  }

  lemma {:induction false} SelectedNone(bs: seq<TouchButton>, tx: int, ty: int)
    requires forall j :: 0 <= j < |bs| ==> !Hit(bs[j], tx, ty)
    ensures Selected(bs, tx, ty) == []
    decreases |bs|
  {
    if |bs| > 0 {
      SelectedNone(bs[..|bs| - 1], tx, ty);
    }
  }

  lemma {:induction false} SelectedSingle(bs: seq<TouchButton>, tx: int, ty: int, i: nat)
    requires i < |bs| && Hit(bs[i], tx, ty)
    requires forall j :: 0 <= j < |bs| && j != i ==> !Hit(bs[j], tx, ty)
    ensures Selected(bs, tx, ty) == [i]
    decreases |bs|
  {
    var n := |bs| - 1;
    assert Selected(bs, tx, ty) == Selected(bs[..n], tx, ty) + (if Hit(bs[n], tx, ty) then [n] else []);
    if i == n {
      SelectedNone(bs[..n], tx, ty);
    } else {
      assert bs[..n][i] == bs[i];
      SelectedSingle(bs[..n], tx, ty, i);
    }
  }

  /**
   * On the laid-out grid the scan selects exactly the cell the division
   * reading names: one button inside the covered area, none in the truncated
   * strips or off the screen.
   */
  lemma GridSelectsCell(width: nat, height: nat, tx: int, ty: int)
    ensures Selected(Grid(width, height), tx, ty)
      == match CellOf(width, height, tx, ty) case Some(i) => [i] case None => []
  {
    var g := Grid(width, height);
    forall j | 0 <= j < ButtonCount
      ensures Hit(g[j], tx, ty) <==> CellOf(width, height, tx, ty) == Some(j)
    {
      GridHitIff(width, height, j, tx, ty);
    }
    match CellOf(width, height, tx, ty)
    case Some(i) => SelectedSingle(g, tx, ty, i);
    case None => SelectedNone(g, tx, ty);
  }

  /**
   * One pass over the laid-out grid: no touch, or a touch outside every cell,
   * sends nothing; a touch in cell `i` makes the single call
   * `send_keyboard_key(0, KeyTable[i])`.
   */
  lemma GridDispatch(width: nat, height: nat, touch: Option<Touch>)
    ensures |Calls(Grid(width, height), touch)| <= 1
    ensures touch.None? ==> Calls(Grid(width, height), touch) == []
    ensures touch.Some? ==>
      Calls(Grid(width, height), touch)
        == match CellOf(width, height, touch.value.x, touch.value.y)
           case Some(i) => [KeyCall(0, KeyCodeFor(i))]
           case None => []
  {
    if touch.Some? {
      GridSelectsCell(width, height, touch.value.x, touch.value.y);
      ScanCallsFollowSelection(Grid(width, height), touch.value.x, touch.value.y);
    }
  }

  /** A ready pass with the touch in cell `i` sends exactly one press/release pair, of key `KeyTable[i]`. */
  lemma GridPassInCell(width: nat, height: nat, t: Touch, i: nat)
    requires CellOf(width, height, t.x, t.y) == Some(i)
    ensures Transmit(Calls(Grid(width, height), Some(t)), true) == [KeyDown(0, KeyCodeFor(i)), KeyUp()]
  {
    GridDispatch(width, height, Some(t));
  }

  /** A run of identical passes, each sending the same pair, sends that pair once per pass. */
  lemma {:induction false} RepeatedPasses(bs: seq<TouchButton>, touches: seq<Option<Touch>>, down: KeyboardReport)
    requires |touches| > 0 ==> Transmit(Calls(bs, touches[0]), true) == [down, KeyUp()]
    requires forall k :: 0 <= k < |touches| ==> touches[k] == touches[0]
    ensures var s := Session(bs, touches, true);
      |s| == 2 * |touches| && forall k :: 0 <= k < |touches| ==> s[2 * k] == down && s[2 * k + 1] == KeyUp()
    decreases |touches|
  {
    if |touches| > 0 {
      var n := |touches| - 1;
      var prev := Session(bs, touches[..n], true);
      assert touches[n] == touches[0];
      assert Session(bs, touches, true) == prev + [down, KeyUp()];
      RepeatedPasses(bs, touches[..n], down);
      forall k | 0 <= k < |touches|
        ensures Session(bs, touches, true)[2 * k] == down && Session(bs, touches, true)[2 * k + 1] == KeyUp()
      {
        if k < n {
          assert Session(bs, touches, true)[2 * k] == prev[2 * k];
          assert Session(bs, touches, true)[2 * k + 1] == prev[2 * k + 1];
        }
      }
    }
  }

  /**
   * The loop is level-triggered: a touch held in cell `i` for `n` ready passes
   * sends `n` press/release pairs of key `KeyTable[i]`, one per pass.
   */
  lemma HeldTouchRepeats(width: nat, height: nat, t: Touch, i: nat, touches: seq<Option<Touch>>)
    requires CellOf(width, height, t.x, t.y) == Some(i)
    requires forall k :: 0 <= k < |touches| ==> touches[k] == Some(t)
    ensures var s := Session(Grid(width, height), touches, true);
      |s| == 2 * |touches| &&
      forall k :: 0 <= k < |touches| ==> s[2 * k] == KeyDown(0, KeyCodeFor(i)) && s[2 * k + 1] == KeyUp()
  {
    GridPassInCell(width, height, t, i);
    RepeatedPasses(Grid(width, height), touches, KeyDown(0, KeyCodeFor(i)));
  }

  /** Before `setupButtons` every rectangle is empty, so no touch dispatches. */
  lemma BlankButtonsAreInert(bs: seq<TouchButton>, touch: Option<Touch>)
    requires forall j :: 0 <= j < |bs| ==> bs[j] == Blank
    ensures Calls(bs, touch) == []
  {
    if touch.Some? {
      SelectedNone(bs, touch.value.x, touch.value.y);
      ScanCallsFollowSelection(bs, touch.value.x, touch.value.y);
    }
  }

  /** The 320 x 240 panel is laid out in 106 x 120 cells; the last one ends at x = 318. */
  lemma Panel320x240Cells()
    ensures Grid(320, 240)[0] == TouchButton(0, 0, 106, 120, "Btn 0", KeyA)
    ensures Grid(320, 240)[5] == TouchButton(212, 120, 106, 120, "Btn 5", KeyF)
  {
    assert Grid(320, 240)[0] == ButtonAt(320, 240, 0);
    assert Grid(320, 240)[5] == ButtonAt(320, 240, 5);
  }

  /** On the 320 x 240 panel the two right-most columns of pixels hit nothing. */
  lemma Panel320x240()
    ensures Calls(Grid(320, 240), Some(Touch(50, 50))) == [KeyCall(0, KeyA)]
    ensures Calls(Grid(320, 240), Some(Touch(317, 239))) == [KeyCall(0, KeyF)]
    ensures Calls(Grid(320, 240), Some(Touch(318, 239))) == []
    ensures Calls(Grid(320, 240), Some(Touch(319, 239))) == []
  {
    assert Calls(Grid(320, 240), Some(Touch(50, 50))) == [KeyCall(0, KeyA)] by {
      GridDispatch(320, 240, Some(Touch(50, 50)));
    }
    assert Calls(Grid(320, 240), Some(Touch(317, 239))) == [KeyCall(0, KeyF)] by {
      GridDispatch(320, 240, Some(Touch(317, 239)));
    }
    assert Calls(Grid(320, 240), Some(Touch(318, 239))) == [] by {
      GridDispatch(320, 240, Some(Touch(318, 239)));
    }
    assert Calls(Grid(320, 240), Some(Touch(319, 239))) == [] by {
      GridDispatch(320, 240, Some(Touch(319, 239)));
    }
  }

  /** The firmware's global button array, with the setup routine and one poll pass. */
  class Keypad {
    const buttons: array<TouchButton>

    /** Static storage: six zero-initialised buttons. */
    constructor ()
      ensures fresh(buttons) && buttons.Length == ButtonCount
      ensures forall j :: 0 <= j < buttons.Length ==> buttons[j] == Blank
    {
      buttons := new TouchButton[ButtonCount](_ => Blank);
    }

    /** `setupButtons`: fill the array in place with the 3x2 grid of a `width` x `height` screen. */
    method SetupButtons(width: nat, height: nat)
      requires buttons.Length == ButtonCount
      modifies buttons
      ensures buttons[..] == Grid(width, height)
    {
      var btnW := width / 3;
      var btnH := height / 2;
      for i := 0 to 6
        invariant forall j :: 0 <= j < i ==> buttons[j] == ButtonAt(width, height, j)
      {
        buttons[i] := TouchButton((i % 3) * btnW, (i / 3) * btnH, btnW, btnH, Label(i), KeyTable[i]);
      }
    }

    /**
     * One pass of the poll loop: with a touch, scan buttons 0 to 5 without
     * stopping at a match and send the key of every button that holds it.
     * The buttons are not changed.
     */
    method Tick(touch: Option<Touch>, hid: HidLink)
      requires buttons.Length == ButtonCount
      modifies hid`sent
      ensures buttons[..] == old(buttons[..])
      ensures hid.sent == old(hid.sent) + Transmit(Calls(buttons[..], touch), hid.ready)
    {
      if touch.None? {
        return;
      }
      var t := touch.value;
      var tx, ty := t.x, t.y;
      ghost var bs := buttons[..];
      for i := 0 to 6
        invariant hid.sent == old(hid.sent) + Transmit(Calls(bs[..i], touch), hid.ready)
      {
        ScanStep(bs, i, t, hid.ready, old(hid.sent));
        if tx >= buttons[i].x && tx < buttons[i].x + buttons[i].w &&
           ty >= buttons[i].y && ty < buttons[i].y + buttons[i].h {
          hid.SendKeyboardKey(0, buttons[i].keyCode);
        }
      }
      assert bs[..6] == bs;
    }

    /**
     * The `while (true)` loop of `app_main`, run for as many passes as there
     * are samples: pass `n` polls with `touches[n]`. The log grows by exactly
     * the run's reports, so a touch held on a button repeats its key.
     */
    method Poll(touches: seq<Option<Touch>>, hid: HidLink)
      requires buttons.Length == ButtonCount
      modifies hid`sent
      ensures hid.sent == old(hid.sent) + Session(buttons[..], touches, hid.ready)
    {
      ghost var bs := buttons[..];
      ghost var ready := hid.ready;
      for n := 0 to |touches|
        invariant hid.ready == ready
        invariant hid.sent == old(hid.sent) + Session(bs, touches[..n], ready)
      {
        SessionSnoc(bs, touches, n, ready, old(hid.sent));
        Tick(touches[n], hid);
      }
      assert touches[..|touches|] == touches;
    }
  }

  /**
   * Start-up on the 320 x 240 panel followed by four passes of the loop with
   * the HID interface ready: a touch in the first cell, a touch in the
   * truncated right strip, no contact, and a touch in the last cell.
   * The log ends up with two press/release pairs, for keys a and f.
   */
  method Panel320x240Session() returns (log: seq<KeyboardReport>)
    ensures log == [KeyDown(0, KeyA), KeyUp(), KeyDown(0, KeyF), KeyUp()]
  {
    var keypad := new Keypad();
    keypad.SetupButtons(320, 240);
    var hid := new HidLink(true);
    Panel320x240();
    keypad.Tick(Some(Touch(50, 50)), hid);
    keypad.Tick(Some(Touch(319, 239)), hid);
    keypad.Tick(None, hid);
    keypad.Tick(Some(Touch(317, 239)), hid);
    log := hid.sent;
  }
}
