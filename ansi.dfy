/** ANSI escape sequences used by the formatters (colorama's Fore and Style
    constants), and the character classes the template regexes rely on.
    Every proof about the formatters uses only what EscapeCode states of these
    values: non-empty, led by ESC, and free of `$`, `{`, `}` and `%`. */
module Ansi {

  const ESC: char := '\U{1B}'

  /** A CSI "select graphic rendition" sequence: ESC [ code m */
  function Sgr(code: string): (r: string)
    requires forall i :: 0 <= i < |code| ==> '0' <= code[i] <= '9'
    ensures EscapeCode(r)
  {
    [ESC, '['] + code + "m"
  }

  /** The properties of an escape constant that the model depends on. */
  predicate EscapeCode(c: string) {
    |c| > 0 && c[0] == ESC &&
    forall i :: 0 <= i < |c| ==> c[i] != '$' && c[i] != '{' && c[i] != '}' && c[i] != '%'
  }

  // Style
  const RESET_ALL: string := Sgr("0")
  const BRIGHT: string := Sgr("1")

  // Fore
  const BLACK: string := Sgr("30")
  const RED: string := Sgr("31")
  const GREEN: string := Sgr("32")
  const YELLOW: string := Sgr("33")
  const BLUE: string := Sgr("34")
  const MAGENTA: string := Sgr("35")
  const CYAN: string := Sgr("36")
  const WHITE: string := Sgr("37")
  const FORE_RESET: string := Sgr("39")
  const LIGHTBLACK_EX: string := Sgr("90")
  const LIGHTRED_EX: string := Sgr("91")
  const LIGHTGREEN_EX: string := Sgr("92")
  const LIGHTYELLOW_EX: string := Sgr("93")
  const LIGHTBLUE_EX: string := Sgr("94")
  const LIGHTMAGENTA_EX: string := Sgr("95")
  const LIGHTCYAN_EX: string := Sgr("96")
  const LIGHTWHITE_EX: string := Sgr("97")

  /** Python's `\w` restricted to ASCII. */
  predicate IsWordChar(c: char) {
    ('a' <= c <= 'z') || ('A' <= c <= 'Z') || ('0' <= c <= '9') || c == '_'
  }

  /** The character class `[A-Z_]` of a directive name. */
  predicate IsTokenChar(c: char) {
    ('A' <= c <= 'Z') || c == '_'
  }

  predicate IsDigit(c: char) {
    '0' <= c <= '9'
  }
}
