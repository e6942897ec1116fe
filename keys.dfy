/** Key events as the terminal library decodes them, and the bindings the
    editor recognises. */
module Keys {

  /** An unsigned 8-bit integer (the number of a function key). */
  type u8 = n: int | 0 <= n < 0x100

  /** One decoded key event: a plain character, a character with the
      control or alt modifier, or one of the named special keys. */
  datatype Key =
    | Backspace | Left | Right | Up | Down | Home | End | PageUp | PageDown
    | BackTab | Delete | Insert | F(number: u8) | Null | Esc
    | Char(c: char)
    | Alt(c: char)
    | Ctrl(c: char)

  /** Control-q: the only key that asks the editor to quit. */
  const QuitKey: Key := Ctrl('q')

  /** The bindings that move the cursor up and down: k, j, H, L, M. */
  predicate IsVertical(key: Key) {
    key.Char? && key.c in "kjHLM"
  }

  /** The bindings that move the cursor left and right: h, l, 0, $. */
  predicate IsHorizontal(key: Key) {
    key.Char? && key.c in "hl0$"
  }

  /** Every key that is handed on to the cursor movement. */
  predicate IsMovement(key: Key) {
    IsVertical(key) || IsHorizontal(key)
  }

  /** The keys that set a coordinate without looking at its old value. */
  predicate IsJump(key: Key) {
    key.Char? && key.c in "HLM0$"
  }
}
