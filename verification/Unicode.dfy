/** Limits and ranges shared by the character-class modules. */
module Unicode {

  const UNI_MAX := 0x10FFFF
  const UNI_BMP := 0xFFFF

  // First and last value, inclusive: of codepoints, of surrogates or of bytes.
  datatype Range = Range(start: int, end: int)

  // A byte that continues a character.
  predicate Trail(b: int) { 0x80 <= b < 0xC0 }
}
