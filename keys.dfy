/**
 * The terminal events the editor reacts to, as crossterm delivers them: a
 * key code, the set of modifiers held, and non-key events (resize, mouse).
 * `KeyModifiers::CONTROL` compared with `==` means Control and nothing else.
 */
module Keys {
  datatype KeyCode = Char(ch: char) | Up | Down | Left | Right | Backspace | Delete | Enter | OtherKey(code: nat)

  datatype Modifier = Shift | Control | Alt

  datatype KeyEvent = KeyEvent(code: KeyCode, modifiers: set<Modifier>)

  datatype Event = Key(key: KeyEvent) | NonKey

  const CONTROL: set<Modifier> := {Control}

  /** The key is `ch` with exactly Control held. */
  predicate IsCtrl(key: KeyEvent, ch: char) {
    key.modifiers == CONTROL && key.code == Char(ch)
  }
}
