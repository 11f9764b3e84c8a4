/**
 * JavaScript strings as the browser holds them: sequences of UTF-16 code
 * units.  A character outside the Basic Multilingual Plane is two code
 * units (a surrogate pair), and a string may even hold a lone surrogate, so
 * a Dafny `string` (a sequence of Unicode scalar values) is not the same
 * thing.  Every string that reaches storage or the database is modelled
 * with the type `Units` below.
 */
module JsText {

  newtype CodeUnit = x: int | 0 <= x < 0x1_0000

  type Units = seq<CodeUnit>

  const Slash: CodeUnit := '/' as CodeUnit
  const Underscore: CodeUnit := '_' as CodeUnit
  const Hyphen: CodeUnit := '-' as CodeUnit
  const Dot: CodeUnit := '.' as CodeUnit

  predicate IsDigit(u: CodeUnit) {
    '0' as CodeUnit <= u <= '9' as CodeUnit
  }

  /** The code unit of the decimal digit `d`. */
  function DigitUnit(d: nat): (u: CodeUnit)
    requires d < 10
    ensures IsDigit(u) && u as int - '0' as int == d
  {
    ('0' as int + d) as CodeUnit
  }
}
