/** The terminal input events the plugin receives from the terminal library
    and republishes unchanged as `TerminalInputEvent`s. Only the parts the
    core inspects are kept: the kind and code of a key event, and the size
    carried by a resize event. */
module InputEvents {

  /** A 16-bit unsigned terminal dimension, as the terminal library reports it. */
  type U16 = n: int | 0 <= n < 0x1_0000

  /** A key, as the terminal library names it. */
  datatype KeyCode =
    | Backspace | Enter | Left | Right | Up | Down | Home | End
    | PageUp | PageDown | Tab | BackTab | Delete | Insert | Esc | Null
    | F(number: nat)
    | Char(c: char)

  /** Whether a key went down, auto-repeated, or went up. */
  datatype KeyEventKind = Press | Repeat | Release

  datatype KeyEvent = KeyEvent(code: KeyCode, kind: KeyEventKind)

  /** A raw terminal event: the key events drive the key state, a resize
      drives the render-image size, the rest only pass through. */
  datatype Event =
    | Key(key: KeyEvent)
    | Mouse(column: U16, row: U16)
    | Resize(columns: U16, rows: U16)
    | FocusGained
    | FocusLost
    | Paste(text: string)
}
