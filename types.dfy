/** Machine-width integer types and an optional value, shared by the keypad model. */
module Types {

  /** An unsigned 8-bit value (`uint8_t`): HID modifiers, key codes, report ids. */
  type u8 = x: int | 0 <= x < 0x100

  /** An unsigned 16-bit value (`uint16_t`): the touch controller's coordinates. */
  type u16 = x: int | 0 <= x < 0x1_0000

  datatype Option<T> = None | Some(value: T)
}
