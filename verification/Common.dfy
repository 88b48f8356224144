/** What several modules share. */
module Common {

  datatype Option<+T> = None | Some(value: T)

  /** The cast of a number to a 32-bit int, which keeps its low 32 bits. */
  function ToInt32(n: nat): int {
    var low := n % 0x1_0000_0000;
    if low < 0x8000_0000 then low else low - 0x1_0000_0000
  }

  /** The value of the hexadecimal digit with character code `code`, or 16. */
  function HexDigit(code: int): (d: nat)
    ensures d <= 16
  {
    if 48 <= code <= 57 then code - 48
    else if 65 <= code <= 70 then code - 55
    else if 97 <= code <= 102 then code - 87
    else 16
  }
}
