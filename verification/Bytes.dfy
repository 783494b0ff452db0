/** Bytes of buffer text and the character tests of the editor's own ctype macros. */
module Bytes {
  type Byte = b: int | 0 <= b < 256

  const NEWLINE: Byte := 10

  datatype Option<+T> = None | Some(value: T)

  /** `islower` of estruct.h: the editor's lower-case range includes Latin-1. */
  predicate IsLower(b: Byte) {
    97 <= b <= 122 || 224 <= b <= 252
  }

  /** `isletter` of estruct.h. */
  predicate IsLetter(b: Byte) {
    97 <= b <= 122 || 65 <= b <= 90 || 192 <= b <= 255
  }

  /** Clearing DIFCASE (0x20) in a lower-case letter. */
  function FoldUpper(b: Byte): Byte {
    if IsLower(b) then b - 32 else b
  }

  /** `safe_chcase`: toggles the case of an ASCII letter, keeps every other byte. */
  function ToggleCase(b: Byte): Byte {
    if 65 <= b <= 90 then b + 32 else if 97 <= b <= 122 then b - 32 else b
  }

  /** `eq`: compare a buffer byte with a pattern byte, folding case unless the buffer is in EXACT mode. */
  predicate Eq(exact: bool, bc: Byte, pc: Byte) {
    if exact then bc == pc else FoldUpper(bc) == FoldUpper(pc)
  }
}
