/**
 The code point type shared by every codec, and the two sentinel values that
 decoding reports errors through. A decoded value is a 32-bit unsigned number
 (`char32_t`): either a Unicode scalar value or one of the two sentinels, which
 lie far above the Unicode range so that a caller can branch on the value alone.
 */
module CodePoints {

  /** A 32-bit unsigned value, as `char32_t` holds it. */
  type CodePoint = x: nat | x < 0x1_0000_0000

  /** Malformed input: a bad lead or continuation unit, a surrogate, an out-of-range or overlong form. */
  const Illegal: CodePoint := 0xFFFF_FFFF

  /** Truncated input: the range ended before the sequence did. */
  const Incomplete: CodePoint := 0xFFFF_FFFE

  /** A Unicode scalar value: at most 0x10FFFF and not a surrogate. */
  predicate IsValidCodePoint(v: nat)
  {
    if v > 0x10FFFF then false
    else if 0xD800 <= v <= 0xDFFF then false
    else true
  }

  predicate IsSentinel(v: nat)
  {
    v == Illegal || v == Incomplete
  }

  /** What a validating decode may return: a real code point or exactly one of the sentinels. */
  predicate IsDecodeOutcome(v: nat)
  {
    IsValidCodePoint(v) || IsSentinel(v)
  }

  /** The result of decoding one code point: its value and how many code units the cursor advanced. */
  datatype Decoded = Decoded(value: CodePoint, consumed: nat)

  /** The sentinels are distinct and neither is a code point, so the error channel is unambiguous. */
  lemma SentinelsAreNotCodePoints(v: nat)
    ensures Illegal != Incomplete
    ensures IsSentinel(v) ==> !IsValidCodePoint(v)
    ensures IsValidCodePoint(v) ==> v < 0x11_0000
  {
  }

  /** The valid code points are the two scalar-value ranges either side of the surrogate block. */
  lemma ValidCodePointRanges(v: nat)
    ensures IsValidCodePoint(v) <==> (v < 0xD800 || 0xE000 <= v < 0x11_0000)
  {
  }
}
