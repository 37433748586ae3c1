/**
 * The 3x2 button grid that `setupButtons` lays out: the button record, the
 * key table, the "Btn i" labels, the rectangle of each cell, and the
 * half-open hit test the poll loop applies to each button.
 */
module Layout {
  import opened Types
  import opened Hid

  /** A `TouchButton`: rectangle origin and size, label text and HID key code. */
  datatype TouchButton = TouchButton(x: int, y: int, w: int, h: int, text: string, keyCode: u8)

  /**
   * A zero-initialised button, as the global array holds before `setupButtons`
   * runs. Its label there is a null pointer, which `""` stands for here; the
   * scan never reads a label.
   */
  const Blank := TouchButton(0, 0, 0, 0, "", 0)

  const Columns: nat := 3
  const Rows: nat := 2
  const ButtonCount: nat := 6

  /** The static key-code table of `setupButtons`, one entry per button. */
  const KeyTable: seq<u8> := [KeyA, KeyB, KeyC, KeyD, KeyE, KeyF]

  /**
   * The poll loop's test: the touch lies in `[x, x + w) x [y, y + h)`. Both
   * bounds are half-open, so a rectangle of zero width or height holds nothing.
   */
  predicate Hit(b: TouchButton, tx: int, ty: int)
    ensures Hit(b, tx, ty) ==> 0 < b.w && 0 < b.h
  {
    b.x <= tx < b.x + b.w && b.y <= ty < b.y + b.h
  }

  /** Button `i` sends the `i`-th letter usage, so the six keys are a..f in grid order. */
  function KeyCodeFor(i: nat): (k: u8)
    requires i < ButtonCount
    ensures k == KeyA + i && KeyA <= k <= KeyF
  {
    KeyTable[i]
  }

  function DigitChar(d: nat): char
    requires d < 10
  {
    (('0' as int) + d) as char
  }

  /** `%d` of a non-negative int: its decimal digits, most significant first, no leading zero. */
  function DecimalString(n: nat): (s: string)
    ensures |s| >= 1
    ensures forall k :: 0 <= k < |s| ==> '0' <= s[k] <= '9'
    ensures |s| > 1 ==> s[0] != '0'
    decreases n
  {
    if n < 10 then [DigitChar(n)] else DecimalString(n / 10) + [DigitChar(n % 10)]
  }

  /** Reads a string of decimal digits back as a number. */
  function DecimalValue(s: string): int
  {
    if |s| == 0 then 0 else 10 * DecimalValue(s[..|s| - 1]) + (s[|s| - 1] as int - '0' as int)
  }

  lemma {:induction false} DecimalRoundTrip(n: nat)
    ensures DecimalValue(DecimalString(n)) == n
    decreases n
  {
    var s := DecimalString(n);
    if n >= 10 {
      DecimalRoundTrip(n / 10);
      assert s[..|s| - 1] == DecimalString(n / 10);
    }
  }

  /** The label `sprintf(labels[i], "Btn %d", i)` writes: "Btn " and then the index in decimal. */
  function Label(i: nat): (s: string)
    ensures |s| > 4 && s[..4] == "Btn " && DecimalValue(s[4..]) == i
    ensures forall k :: 4 <= k < |s| ==> '0' <= s[k] <= '9'
    ensures |s| > 5 ==> s[4] != '0'
  {
    var s := "Btn " + DecimalString(i);
    DecimalRoundTrip(i);
    assert s[4..] == DecimalString(i);
    s
  }

  /** Distinct buttons carry distinct labels, and each label reads back as its index. */
  lemma LabelsIdentifyButtons(i: nat, j: nat)
    ensures Label(i)[..4] == "Btn " && DecimalValue(Label(i)[4..]) == i
    ensures forall k :: 4 <= k < |Label(i)| ==> '0' <= Label(i)[k] <= '9'
    ensures |Label(i)| > 5 ==> Label(i)[4] != '0'
    ensures Label(i) == Label(j) ==> i == j
  {
    assert Label(i)[4..] == DecimalString(i);
    assert Label(j)[4..] == DecimalString(j);
    DecimalRoundTrip(i);
    DecimalRoundTrip(j);
  }

  /**
   * What `setupButtons` stores in `buttons[i]` for a `width` x `height` screen:
   * a rectangle inside the screen, three of whose widths and two of whose
   * heights fit the screen, with the label of `i` and the `i`-th letter key.
   */
  function ButtonAt(width: nat, height: nat, i: nat): (b: TouchButton)
    requires i < ButtonCount
    ensures 0 <= b.x && b.x + b.w <= width && 0 <= b.y && b.y + b.h <= height
    ensures Columns * b.w <= width && Rows * b.h <= height
    ensures b.text == Label(i) && b.keyCode == KeyA + i
  {
    var btnW, btnH := width / Columns, height / Rows;
    MulMonotone(i % Columns + 1, Columns, btnW);
    MulMonotone(i / Columns + 1, Rows, btnH);
    TouchButton((i % Columns) * btnW, (i / Columns) * btnH, btnW, btnH, Label(i), KeyTable[i])
  }

  /** The whole laid-out array, in row-major order. */
  function Grid(width: nat, height: nat): (g: seq<TouchButton>)
    ensures |g| == ButtonCount
    ensures forall i :: 0 <= i < ButtonCount ==> g[i] == ButtonAt(width, height, i)
  {
    seq(ButtonCount, i requires 0 <= i < ButtonCount => ButtonAt(width, height, i))
  }

  /**
   * An independent reading of the layout by division: the cell in column
   * `tx / btnW` and row `ty / btnH`, or none when the touch falls outside the
   * `3 * btnW` by `2 * btnH` area the grid covers (the truncated right and
   * bottom strips included).
   */
  function CellOf(width: nat, height: nat, tx: int, ty: int): (r: Option<nat>)
    ensures r.Some? <==> 0 <= tx < Columns * (width / Columns) && 0 <= ty < Rows * (height / Rows)
    ensures r.Some? ==> r.value < ButtonCount
  {
    var btnW, btnH := width / Columns, height / Rows;
    if 0 <= tx < Columns * btnW && 0 <= ty < Rows * btnH then
      DivBelow(tx, btnW, Columns);
      DivBelow(ty, btnH, Rows);
      Some(tx / btnW + Columns * (ty / btnH))
    else
      None
  }

  lemma MulMonotone(a: int, b: int, d: int)
    requires a <= b && 0 <= d
    ensures a * d <= b * d
  {
    assert b * d - a * d == (b - a) * d;
  }

  lemma DivBelow(x: int, d: int, n: int)
    requires 0 <= x && 0 < d && x < n * d
    ensures 0 <= x / d < n
  {
    var q := x / d;
    assert q * d <= x;
    if q >= n {
      MulMonotone(n, q, d);
    }
  }

  /** A number lies in the `c`-th band of width `d` exactly when its quotient by `d` is `c`. */
  lemma DivBand(x: int, d: int, c: int)
    requires 0 <= x && 0 < d && 0 <= c
    ensures (c * d <= x < c * d + d) <==> x / d == c
  {
    var q := x / d;
    assert q * d <= x < q * d + d;
    if q < c {
      MulMonotone(q + 1, c, d);
    } else if q > c {
      MulMonotone(c + 1, q, d);
    }
  }

  /** Every laid-out button lies inside the screen `[0, width) x [0, height)`. */
  lemma GridInsideScreen(width: nat, height: nat, i: nat)
    requires i < ButtonCount
    ensures var b := Grid(width, height)[i];
      0 <= b.x && b.x + b.w <= width && 0 <= b.y && b.y + b.h <= height
  {
    assert Grid(width, height)[i] == ButtonAt(width, height, i);
  }

  /**
   * Along one axis: `x` lies in band `idx` of width `band` exactly when it lies
   * in the `count` bands' span and its quotient by `band` is `idx`.
   */
  lemma AxisBand(x: int, band: nat, idx: nat, count: nat)
    requires idx < count
    ensures (idx * band <= x < idx * band + band)
      <==> (0 <= x < count * band && x / band == idx)
  {
    if band > 0 {
      MulMonotone(0, idx, band);
      MulMonotone(idx + 1, count, band);
      if 0 <= x {
        DivBand(x, band, idx);
      }
    }
  }

  /** Button `i` contains a touch exactly when the division reading puts the touch in cell `i`. */
  lemma GridHitIff(width: nat, height: nat, i: nat, tx: int, ty: int)
    requires i < ButtonCount
    ensures Hit(Grid(width, height)[i], tx, ty) <==> CellOf(width, height, tx, ty) == Some(i)
  {
    var btnW, btnH := width / Columns, height / Rows;
    var col, row := i % Columns, i / Columns;
    AxisBand(tx, btnW, col, Columns);
    AxisBand(ty, btnH, row, Rows);
    var c := CellOf(width, height, tx, ty);
    if c.Some? {
      DivBelow(tx, btnW, Columns);
      DivBelow(ty, btnH, Rows);
      assert c.value == tx / btnW + Columns * (ty / btnH);
    }
  }

  /** No touch lies in two laid-out buttons. */
  lemma GridDisjoint(width: nat, height: nat, i: nat, j: nat, tx: int, ty: int)
    requires i < ButtonCount && j < ButtonCount && i != j
    ensures !(Hit(Grid(width, height)[i], tx, ty) && Hit(Grid(width, height)[j], tx, ty))
  {
    GridHitIff(width, height, i, tx, ty);
    GridHitIff(width, height, j, tx, ty);
  }

  /**
   * The grid tiles `[0, 3 * btnW) x [0, 2 * btnH)`: every touch there lies in
   * exactly one button, and a touch anywhere else (the remainder strips, or
   * off the screen) lies in none.
   */
  lemma GridTiles(width: nat, height: nat, tx: int, ty: int)
    ensures (exists i :: 0 <= i < ButtonCount && Hit(Grid(width, height)[i], tx, ty))
      <==> 0 <= tx < Columns * (width / Columns) && 0 <= ty < Rows * (height / Rows)
  {
    var c := CellOf(width, height, tx, ty);
    if c.Some? {
      GridHitIff(width, height, c.value, tx, ty);
    } else {
      forall i | 0 <= i < ButtonCount
        ensures !Hit(Grid(width, height)[i], tx, ty)
      {
        GridHitIff(width, height, i, tx, ty);
      }
    }
  }
}
