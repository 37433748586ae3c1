# Touch keypad dispatch model

A Dafny model of the application logic of an ESP32-S3 "stream deck" firmware. The firmware draws a 3x2 grid of buttons on a touch LCD. Whenever a touch lands in a button, it sends a USB HID keyboard press and release for that button's key.

Three pieces of `main/main.cpp` are modelled:

- **Grid layout** (`setupButtons`). The global `buttons[6]` array is filled in place for a `width` x `height` screen. Button `i` gets the rectangle at column `i % 3`, row `i / 3`, of size `width / 3` by `height / 2`. It also gets the label `"Btn i"` and the `i`-th key of the table a..f. These keys are usages 0x04 to 0x09 of the Keyboard/Keypad page (section 10 of the HID Usage Tables 1.12).
- **Hit-test dispatch** (one pass of the `while (true)` loop in `app_main`). Given a touch, the pass scans buttons 0 to 5 in order and does not stop at a match. Every button whose half-open rectangle `[x, x + w) x [y, y + h)` holds the touch triggers `send_keyboard_key(0, key_code)`.
- **Key-report emission** (`send_keyboard_key`). When the HID interface is not ready, nothing is sent. Otherwise the function sends a key-down report and then an all-released report. Both use the six-slot boot keyboard report shape of Appendix B.1 of the Device Class Definition for HID 1.11.

Modules:

- `Types` holds `u8`, `u16` and `Option`.
- `Hid` holds the reports and the `HidLink` class. That class stands for the USB stack: a readiness flag and the log of reports handed to it.
- `Layout` holds `TouchButton`, the key table, labels, the grid and its geometry lemmas.
- `App` holds the `Keypad` class with the global button array, `SetupButtons`, `Tick` and `Poll`, plus the dispatch lemmas.

`CellOf` is an independent reference for the layout. It names the cell `tx / btnW + 3 * (ty / btnH)`, or none outside the covered `3 * btnW` by `2 * btnH` area. The lemmas prove that the scan over the laid-out array selects exactly that cell.

The code is level-triggered and has no debounce state. A touch held inside a button sends a press/release pair on every pass of the loop; `HeldTouchRepeats` proves this. Integer division truncates the grid. On a 320 x 240 panel the cells are 106 x 120 pixels. Touches at `x = 318` and `x = 319` therefore fall in no button and send nothing (`Panel320x240`).

## Model

| member | source | states |
|---|---|---|
| `Hid.KeyDown` | main/main.cpp:90-91 | The key-down report has the keyboard report id and six slots. It carries the given modifier, and a host reads exactly the given key as held (nothing for key 0). |
| `Hid.KeyUp` | main/main.cpp:97 | The release report has the keyboard report id and six slots, modifier 0, and no key held. |
| `Hid.Transmit` | main/main.cpp:84-98 | A run of `send_keyboard_key` calls yields two reports per call when ready and none at all when not ready. |
| `Hid.TransmitAt` | main/main.cpp:90-97 | Call `k` appears as its key-down report at position `2k` and the all-released report at `2k + 1`. |
| `Hid.TransmitPressesAndReleases` | main/main.cpp:90-97 | Read by a host, call `k` shows its key held with its modifier, then no key and no modifier. |
| `Hid.HidLink.SendKeyboardKey` | main/main.cpp:84-98 | Not ready: the log is unchanged. Ready: exactly the key-down report and then the release report are appended, in that order. |
| `Layout.KeyCodeFor` | main/main.cpp:121 | Button `i`'s key code is usage `0x04 + i`, so the six keys are a..f in grid order. |
| `Layout.DecimalString` | main/main.cpp:122 | `%d` of a non-negative number is a non-empty string of decimal digits with no leading zero. |
| `Layout.DecimalRoundTrip` | main/main.cpp:122 | Reading the formatted digits back gives the number. |
| `Layout.LabelsIdentifyButtons` | main/main.cpp:120-123 | Every label is `"Btn "` followed by the button's index in decimal, with no leading zero. Distinct buttons have distinct labels. |
| `Layout.Hit` | main/main.cpp:155-156 | The half-open hit test `x <= tx < x + w`, `y <= ty < y + h`. A rectangle of zero width or height holds no touch. What it selects on the grid is stated by `Layout.GridHitIff`. |
| `Layout.Label` | main/main.cpp:122 | `sprintf("Btn %d", i)`: the label is `"Btn "` followed by decimal digits with no leading zero that read back as `i`. |
| `Layout.ButtonAt` | main/main.cpp:115-124 | Button `i` of a `W` x `H` screen lies inside `[0, W) x [0, H)`. Three of its widths fit in `W` and two of its heights fit in `H`. It carries `Label(i)` and key usage `0x04 + i`. |
| `Layout.Grid` | main/main.cpp:110-126 | The layout has six buttons, and button `i` is `ButtonAt(W, H, i)`. |
| `Layout.CellOf` | main/main.cpp:111-112 | The division reading names a cell exactly when the touch lies in the `3 * (W/3)` by `2 * (H/2)` area, and the cell index is below 6. |
| `Layout.AxisBand` | main/main.cpp:155-156 | On one axis, a coordinate lies in band `idx` exactly when it lies in the bands' span and its quotient by the band width is `idx`. |
| `Layout.GridInsideScreen` | main/main.cpp:111-118 | Every laid-out rectangle lies inside `[0, W) x [0, H)`. |
| `Layout.GridHitIff` | main/main.cpp:111-118 | Button `i`'s half-open rectangle holds a touch if and only if the division reading puts that touch in cell `i`. |
| `Layout.GridDisjoint` | main/main.cpp:111-118 | No touch lies in two different laid-out buttons. |
| `Layout.GridTiles` | main/main.cpp:111-118 | Some button holds a touch if and only if the touch lies in `[0, 3 * (W/3)) x [0, 2 * (H/2))`. The truncated right and bottom strips belong to no button. |
| `App.Selected` | main/main.cpp:154-156 | The scan's matches are exactly the buttons whose rectangle holds the touch, each once, in ascending order. |
| `App.ScanCalls` | main/main.cpp:154-159 | The scan over the buttons makes at most one `send_keyboard_key` call per button, each with modifier 0. Which calls it makes is stated by `App.ScanCallsFollowSelection`. |
| `App.Calls` | main/main.cpp:152-159 | One pass makes no call without contact, at most one call per button, and every call has modifier 0. |
| `App.CallsSnoc` | main/main.cpp:154-159 | Scanning one more button adds that button's call exactly when its rectangle holds the touch. |
| `App.ScanStep` | main/main.cpp:154-159 | Scanning one more button appends that button's press/release reports to the log exactly when its rectangle holds the touch. |
| `App.Session` | main/main.cpp:150-170 | A run of passes sends nothing at all while the HID interface is not ready. Repetition under a held touch is stated by `App.HeldTouchRepeats`. |
| `App.SessionSnoc` | main/main.cpp:150-170 | One more pass of the loop appends exactly that pass's reports to the log. |
| `App.RepeatedPasses` | main/main.cpp:150-170 | When one sample sends the pair (down, release), repeating that sample `n` times sends `n` such pairs in a row. |
| `App.ScanCallsFollowSelection` | main/main.cpp:154-159 | The scan makes one `send_keyboard_key` call per match, in scan order, with modifier 0 and the matched button's key code. |
| `App.GridSelectsCell` | main/main.cpp:152-159 | On the laid-out grid the scan selects exactly the cell `CellOf` names, or nothing. |
| `App.GridDispatch` | main/main.cpp:152-159 | One pass makes at most one call. It makes none without contact or for a touch outside every cell. A touch in cell `i` makes the call `(0, KeyTable[i])`. |
| `App.GridPassInCell` | main/main.cpp:155-159 | A ready pass with the touch in cell `i` sends exactly the pair key-down(0, key `i`) and release. |
| `App.HeldTouchRepeats` | main/main.cpp:150-170 | A touch held in cell `i` for `n` ready passes sends `n` press/release pairs of key `i`, one per pass. There is no debounce. |
| `App.BlankButtonsAreInert` | main/main.cpp:108 | With the zero-initialised array that exists before setup, no touch sends anything. |
| `App.Panel320x240Cells` | main/main.cpp:111-124 | On 320 x 240, button 0 is (0, 0, 106, 120) labelled "Btn 0" with key a, and button 5 is (212, 120, 106, 120) labelled "Btn 5" with key f. |
| `App.Panel320x240` | main/main.cpp:152-159 | On the 320 x 240 grid, (50, 50) calls key a and (317, 239) calls key f. (318, 239) and (319, 239) make no call. |
| `App.Panel320x240Session` | main/main.cpp:138-167 | Start-up on 320 x 240 followed by passes at (50, 50), (319, 239), no contact and (317, 239) logs exactly the two pairs for a and f. |
| `App.Keypad.constructor` | main/main.cpp:108 | The global array holds six zero-initialised buttons. |
| `App.Keypad.SetupButtons` | main/main.cpp:110-126 | Afterwards the array is exactly the 3x2 grid. Button `i` is at `((i%3)*(W/3), (i/3)*(H/2))`, has size `W/3` x `H/2`, and carries `"Btn i"` and key `i`. |
| `App.Keypad.Tick` | main/main.cpp:150-167 | One pass leaves the buttons unchanged. It appends to the log exactly the reports of the scan's calls under the current readiness: nothing without contact or when not ready. |
| `App.Keypad.Poll` | main/main.cpp:150-170 | The loop run over a sequence of touch samples, one pass each, appends exactly `Session` of those samples to the log. |

## Left out

- USB descriptors and `init_usb_hid` (main/main.cpp:11-55): these are byte arrays built by TinyUSB macros that are not part of this model, plus driver installation.
- `tud_hid_descriptor_report_cb`, `tud_hid_get_report_cb` and `tud_hid_set_report_cb` (main/main.cpp:59-81): stubs that only link the USB stack.
- Display work (`lcd.init`, `setRotation`, `fillScreen`, `drawButtons`, the `fillRect` highlight and redraw after a press): display driver calls that change no state the model tracks. `lcd.width()`/`lcd.height()` become the `width`/`height` parameters of `SetupButtons`, modelled as non-negative.
- `lcd.getTouch`: the touch sample becomes the `touch` parameter of `Tick`, `None` when there is no contact.
- `vTaskDelay` (50 ms, 100 ms, 10 ms) and the endlessness of `while (true)`: `Poll` runs the loop for as many passes as it is given touch samples, one `Tick` each, and `Session` specifies such a finite run.
- `printf` diagnostics, including the "not ready" message. Of `sprintf`, only the label it produces is modelled, not the buffer mechanics.
- `tud_hid_ready`: it becomes the `ready` field of `HidLink`, which the firmware reads and never writes. Within one pass, every `send_keyboard_key` call sees the same readiness. Under the grid at most one call happens per pass, so this loses nothing there. The firmware re-reads readiness at every call; a host that enumerates part-way through a run is modelled by setting `ready` between `Tick` or `Poll` calls.
- Hid.Transmit: it takes one readiness value for the whole run of calls it describes. Readiness changing between two calls of the same pass is not modelled.
- `tud_hid_keyboard_report`'s own behaviour: TinyUSB's source is not part of this model. The log records the reports handed to it. Its boolean result, which the firmware ignores, and what reaches the host are not modelled. Its zero-filling of a NULL key array is modelled as an all-zero six-slot report.
- 32-bit `int` overflow: none occurs, because every coordinate and size is at most the screen size.
