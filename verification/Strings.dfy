/** CHAR16 strings, as gnu-efi passes them around. */
module Strings {

  type Char16 = c: int | 0 <= c < 0x10000

  /** A string without its terminating zero. */
  type Text = s: seq<Char16> | 0 !in s

  /** What the NUL-terminated string `s` holds at index `i`. */
  function At(s: Text, i: nat): Char16
    requires i <= |s|
  {
    if i < |s| then s[i] else 0
  }
}
