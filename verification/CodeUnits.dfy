/** Strings of the source: sequences of UTF-16 code units; bytes; decimal and hexadecimal digits. */
module CodeUnits {

  type Unit = u: int | 0 <= u < 0x1_0000

  type Str = seq<Unit>

  type Byte = b: int | 0 <= b < 256

  predicate IsDigit(c: Unit) { 0x30 <= c <= 0x39 }

  predicate IsHexDigit(c: Unit) { IsDigit(c) || 0x41 <= c <= 0x46 || 0x61 <= c <= 0x66 }

  function HexValue(c: Unit): (v: nat)
    requires IsHexDigit(c)
    ensures v < 16
  {
    if IsDigit(c) then c - 0x30 else if c >= 0x61 then c - 0x61 + 10 else c - 0x41 + 10
  }

  /** The code units of a text in ASCII. */
  function Ascii(s: string): Str {
    if s == "" then [] else [if s[0] < 128 as char then s[0] as int else 0] + Ascii(s[1..])
  }
}
