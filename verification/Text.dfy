// 16-bit characters and NUL-terminated strings.
module Text {

  type CHAR16 = x: int | 0 <= x < 0x1_0000

  // A NUL-terminated string, the terminator left off.
  type CString = s: seq<CHAR16> | 0 !in s

  // What a pointer at offset i of the string reads: the terminator is the last readable place.
  function At(s: CString, i: nat): CHAR16
    requires i <= |s|
  {
    if i < |s| then s[i] else 0
  }
}
