/**
 * The USB HID keyboard side of the firmware: the shape of a boot keyboard
 * input report (Appendix B.1 of the Device Class Definition for HID 1.11),
 * the key usages the keypad sends (section 10 of the HID Usage Tables 1.12,
 * Keyboard/Keypad page 0x07), and `send_keyboard_key`, which emits a
 * press/release pair when the HID interface is ready.
 */
module Hid {
  import opened Types

  // Keyboard/Keypad page usage IDs of the letters a..f.
  const KeyA: u8 := 0x04
  const KeyB: u8 := 0x05
  const KeyC: u8 := 0x06
  const KeyD: u8 := 0x07
  const KeyE: u8 := 0x08
  const KeyF: u8 := 0x09

  /** The report id the report descriptor declares (the keyboard interface protocol, 1). */
  const KeyboardReportId: u8 := 1

  /** A boot keyboard report carries six key-code slots. */
  const SlotCount: nat := 6

  /** One input report handed to the USB stack: report id, modifier byte, key-code slots. */
  datatype KeyboardReport = KeyboardReport(reportId: u8, modifier: u8, keycodes: seq<u8>)

  /** One call of `send_keyboard_key(modifier, keycode)`. */
  datatype KeyCall = KeyCall(modifier: u8, keycode: u8)

  /** The report has the keyboard report id and exactly six key-code slots. */
  predicate BootShaped(r: KeyboardReport)
  {
    r.reportId == KeyboardReportId && |r.keycodes| == SlotCount
  }

  /** What a host reads from a report: the keys it lists as held (0 marks an empty slot). */
  function PressedKeys(r: KeyboardReport): set<u8>
  {
    set k | k in r.keycodes && k != 0
  }

  /** The key-down report: the key code in the first slot, the other five slots empty. */
  function KeyDown(modifier: u8, keycode: u8): (r: KeyboardReport)
    ensures BootShaped(r) && r.modifier == modifier
    ensures PressedKeys(r) == if keycode == 0 then {} else {keycode}
  {
    var r := KeyboardReport(KeyboardReportId, modifier, [keycode, 0, 0, 0, 0, 0]);
    assert forall k :: k in r.keycodes <==> k == keycode || k == 0;
    r
  }

  /** The all-released report: no modifier and no key (the stack zero-fills a NULL key array). */
  function KeyUp(): (r: KeyboardReport)
    ensures BootShaped(r) && r.modifier == 0 && PressedKeys(r) == {}
  {
    var r := KeyboardReport(KeyboardReportId, 0, [0, 0, 0, 0, 0, 0]);
    assert forall k :: k in r.keycodes ==> k == 0;
    r
  }

  /**
   * The reports a sequence of `send_keyboard_key` calls hands to the USB stack
   * while readiness stays `ready`: a key-down and then a key-up report per call
   * when ready, nothing at all when not.
   */
  function Transmit(calls: seq<KeyCall>, ready: bool): (r: seq<KeyboardReport>)
    ensures |r| == if ready then 2 * |calls| else 0
  {
    if |calls| == 0 || !ready then []
    else
      var last := calls[|calls| - 1];
      Transmit(calls[..|calls| - 1], ready) + [KeyDown(last.modifier, last.keycode), KeyUp()]
  }

  /** Sending one more call appends exactly that call's reports. */
  lemma TransmitSnoc(calls: seq<KeyCall>, c: KeyCall, ready: bool)
    ensures Transmit(calls + [c], ready) == Transmit(calls, ready) + Transmit([c], ready)
  {
    assert (calls + [c])[..|calls|] == calls;
  }

  /** The `k`-th call shows up as the reports at `2 * k` (its key down) and `2 * k + 1` (all released). */
  lemma {:induction false} TransmitAt(calls: seq<KeyCall>, k: nat)
    requires k < |calls|
    ensures Transmit(calls, true)[2 * k] == KeyDown(calls[k].modifier, calls[k].keycode)
    ensures Transmit(calls, true)[2 * k + 1] == KeyUp()
    decreases |calls|
  {
    var n := |calls| - 1;
    if k < n {
      TransmitAt(calls[..n], k);
    }
  }

  /** What the host reads from the `k`-th pair: the key held with its modifier, then nothing held. */
  lemma TransmitPressesAndReleases(calls: seq<KeyCall>, k: nat)
    requires k < |calls| && calls[k].keycode != 0
    ensures PressedKeys(Transmit(calls, true)[2 * k]) == {calls[k].keycode}
    ensures Transmit(calls, true)[2 * k].modifier == calls[k].modifier
    ensures PressedKeys(Transmit(calls, true)[2 * k + 1]) == {}
    ensures Transmit(calls, true)[2 * k + 1].modifier == 0
  {
    TransmitAt(calls, k);
  }

  /**
   * The USB HID interface as the firmware sees it: a readiness flag that the
   * stack maintains, and the log of reports handed to it so far.
   */
  class HidLink {
    var ready: bool
    var sent: seq<KeyboardReport>

    constructor (ready: bool)
      ensures this.ready == ready && sent == []
    {
      this.ready := ready;
      sent := [];
    }

    /**
     * `send_keyboard_key`: when the interface is not ready, nothing is sent;
     * otherwise the key-down report and then the all-released report.
     */
    method SendKeyboardKey(modifier: u8, keycode: u8)
      modifies this`sent
      ensures !ready ==> sent == old(sent)
      ensures ready ==> sent == old(sent) + [KeyDown(modifier, keycode), KeyUp()]
      ensures sent == old(sent) + Transmit([KeyCall(modifier, keycode)], ready)
    {
      if !ready {
        return;
      }
      var keyReport := [keycode, 0, 0, 0, 0, 0];
      sent := sent + [KeyboardReport(KeyboardReportId, modifier, keyReport)];
      sent := sent + [KeyboardReport(KeyboardReportId, 0, [0, 0, 0, 0, 0, 0])];
    }
  }
}
