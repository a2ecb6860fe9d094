/**
 * Key events read from the terminal. The selector and the text viewer compare
 * curses key codes against a handful of constants; this module names those
 * codes (the values ncurses assigns) and maps each code to the abstract event
 * the two loops dispatch on.
 */
module Keys {

  datatype Key =
    | Up
    | Down
    | Enter
    | Printable(ch: char)
    | Backspace
    | PageUp
    | PageDown
    | End
    | Other(code: int)

  const CursesKeyDown: int := 258
  const CursesKeyUp: int := 259
  const CursesKeyBackspace: int := 263
  const CursesKeyNPage: int := 338
  const CursesKeyPPage: int := 339
  const CursesKeyEnter: int := 343
  const CursesKeyEnd: int := 360

  /** The event a curses key code stands for: Enter is KEY_ENTER, 10 or 13; Backspace is
      KEY_BACKSPACE or 127; the codes 32..126 are printable characters; the viewer's page and
      end keys are KEY_PPAGE, KEY_NPAGE and KEY_END. */
  function FromCode(code: int): (k: Key)
    ensures k == Enter <==> code == CursesKeyEnter || code == 10 || code == 13
    ensures k == Backspace <==> code == CursesKeyBackspace || code == 127
    ensures k.Printable? <==> 32 <= code <= 126
    ensures k.Printable? ==> k.ch as int == code
    ensures k == Up <==> code == CursesKeyUp
    ensures k == Down <==> code == CursesKeyDown
    ensures k == PageUp <==> code == CursesKeyPPage
    ensures k == PageDown <==> code == CursesKeyNPage
    ensures k == End <==> code == CursesKeyEnd
    ensures k.Other? ==> k.code == code
  {
    if code == CursesKeyUp then Up
    else if code == CursesKeyDown then Down
    else if code == CursesKeyEnter || code == 10 || code == 13 then Enter
    else if 32 <= code <= 126 then Printable(code as char)
    else if code == CursesKeyBackspace || code == 127 then Backspace
    else if code == CursesKeyPPage then PageUp
    else if code == CursesKeyNPage then PageDown
    else if code == CursesKeyEnd then End
    else Other(code)
  }
}
