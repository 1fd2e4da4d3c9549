/** The UTF-8 encoding of code points (section 3 of RFC 3629), as Go's unicode/utf8 computes it. */
module Utf8 {
  import opened Bytes

  type rune = int

  const MaxRune: rune := 0x10FFFF
  const RuneError: rune := 0xFFFD
  const RuneSelf: rune := 0x80
  const UTFMax := 4

  predicate IsSurrogate(r: rune) {
    0xD800 <= r <= 0xDFFF
  }

  predicate ValidRune(r: rune) {
    0 <= r <= MaxRune && !IsSurrogate(r)
  }

  /** The bit layout of RFC 3629 for any number up to MaxRune, surrogates included. */
  function Encode(r: rune): (s: Str)
    requires 0 <= r <= MaxRune
    ensures 1 <= |s| <= 4
  {
    if r < 0x80 then [r]
    else if r < 0x800 then [0xC0 + r / 64, 0x80 + r % 64]
    else if r < 0x10000 then [0xE0 + r / 4096, 0x80 + r / 64 % 64, 0x80 + r % 64]
    else [0xF0 + r / 262144, 0x80 + r / 4096 % 64, 0x80 + r / 64 % 64, 0x80 + r % 64]
  }

  /** utf8.EncodeRune, and Go's conversion of an integer to a string: what is not a rune
      becomes RuneError. */
  function EncodeRune(r: rune): (s: Str)
    ensures 1 <= |s| <= 4
  {
    if ValidRune(r) then Encode(r) else Encode(RuneError)
  }

  function EncodeRunes(rs: seq<rune>): Str {
    if rs == [] then [] else EncodeRunes(rs[..|rs| - 1]) + EncodeRune(rs[|rs| - 1])
  }

  predicate IsTail(c: byte) {
    0x80 <= c <= 0xBF
  }

  /** The bits of a byte below its mark. */
  function Bits(c: byte, mark: int): int {
    c - mark
  }

  /** The table of section 3 of RFC 3629: which runes take how many bytes, what these bytes can be, and how the rune is
      read back from them. */
  lemma EncodeIsUtf8(r: rune)
    requires 0 <= r <= 0x10FFFF
    ensures var e := Encode(r);
            match |e|
            case 1 => r <= 0x7F && r == e[0]
            case 2 => 0x80 <= r <= 0x7FF && 0xC2 <= e[0] <= 0xDF && IsTail(e[1]) && r == Bits(e[0], 0xC0) * 0x40 + Bits(e[1], 0x80)
            case 3 => 0x800 <= r <= 0xFFFF && 0xE0 <= e[0] <= 0xEF && IsTail(e[1]) && IsTail(e[2])
                      && r == Bits(e[0], 0xE0) * 0x1000 + Bits(e[1], 0x80) * 0x40 + Bits(e[2], 0x80)
            case _ => 0x10000 <= r && 0xF0 <= e[0] <= 0xF4 && IsTail(e[1]) && IsTail(e[2]) && IsTail(e[3])
                      && r == Bits(e[0], 0xF0) * 0x40000 + Bits(e[1], 0x80) * 0x1000 + Bits(e[2], 0x80) * 0x40 + Bits(e[3], 0x80)
  {
    var a, b := r / 64, r / 64 / 64;
    assert r / 4096 == b && r / 262144 == b / 64;
    assert r == a * 64 + r % 64 && a == b * 64 + a % 64 && b == b / 64 * 64 + b % 64;
  }

  /** What is not a rune, surrogates included, is written as the replacement character. */
  lemma EncodeRuneIs(r: rune)
    ensures EncodeRune(r) == if 0 <= r <= 0xD7FF || 0xE000 <= r <= 0x10FFFF then Encode(r) else [0xEF, 0xBF, 0xBD]
  {
  }
}
