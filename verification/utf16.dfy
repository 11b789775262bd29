/**
 The UTF-16 codec (code units two bytes wide), following sections 2.1 (encoding)
 and 2.2 (decoding) of RFC 2781. A code point above 0xFFFF travels as a high
 (first) surrogate in 0xD800..0xDBFF followed by a low (second) surrogate in
 0xDC00..0xDFFF, each carrying ten bits of `value - 0x10000`.
 */
module Utf16 {
  import opened CodePoints

  /** One UTF-16 code unit, read as `uint16_t`. */
  type Unit16 = x: nat | x < 0x1_0000

  const MaxWidth: nat := 2

  predicate IsFirstSurrogate(x: Unit16)
  {
    0xD800 <= x <= 0xDBFF
  }

  predicate IsSecondSurrogate(x: Unit16)
  {
    0xDC00 <= x <= 0xDFFF
  }

  /** The code point a surrogate pair stands for: `((w1 & 0x3FF) << 10 | (w2 & 0x3FF)) + 0x10000`. */
  function CombineSurrogate(w1: Unit16, w2: Unit16): (r: CodePoint)
    ensures 0x1_0000 <= r <= 0x10_FFFF
    ensures IsValidCodePoint(r)
  {
    (w1 % 0x400) * 0x400 + w2 % 0x400 + 0x1_0000
  }

  /** 1 for a high surrogate (one more unit follows), -1 for a low one (never leads), else 0. */
  function TrailLength(c: Unit16): int
  {
    if IsFirstSurrogate(c) then 1
    else if IsSecondSurrogate(c) then -1
    else 0
  }

  predicate IsTrail(c: Unit16)
  {
    IsSecondSurrogate(c)
  }

  predicate IsLead(c: Unit16)
  {
    !IsSecondSurrogate(c)
  }

  /** Number of units in the encoding of `u`. */
  function Width(u: nat): nat
  {
    if u >= 0x1_0000 then 2 else 1
  }

  /**
   Validating decode of the code point at the front of `s`. A second unit is
   consumed even when it turns out not to be a low surrogate.
   */
  function Decode(s: seq<Unit16>): (r: Decoded)
    ensures |s| == 0 ==> r == Decoded(Incomplete, 0)
    ensures |s| > 0 ==> 1 <= r.consumed <= MaxWidth && r.consumed <= |s|
    ensures IsDecodeOutcome(r.value)
    ensures r.value == Incomplete ==> r.consumed == |s|
    ensures IsValidCodePoint(r.value) ==> r.consumed == Width(r.value)
  {
    if |s| == 0 then Decoded(Incomplete, 0)
    else
      var w1 := s[0];
      if w1 < 0xD800 || 0xDFFF < w1 then Decoded(w1, 1)
      else if w1 > 0xDBFF then Decoded(Illegal, 1)
      else if |s| == 1 then Decoded(Incomplete, 1)
      else
        var w2 := s[1];
        if w2 < 0xDC00 || 0xDFFF < w2 then Decoded(Illegal, 2)
        else Decoded(CombineSurrogate(w1, w2), 2)
  }

  /** Unchecked decode: any surrogate is taken as the first of a pair. */
  function DecodeValid(s: seq<Unit16>): (r: Decoded)
    requires |s| > 0 && (0xD800 <= s[0] <= 0xDFFF ==> |s| >= 2)
    ensures r.consumed == 1 ==> r.value == s[0]
    ensures r.consumed == 2 ==> 0x1_0000 <= r.value <= 0x10_FFFF
  {
    var w1 := s[0];
    if w1 < 0xD800 || 0xDFFF < w1 then Decoded(w1, 1)
    else Decoded(CombineSurrogate(w1, s[1]), 2)
  }

  /** The units for a valid code point: itself, or a surrogate pair. */
  function Encode(u: CodePoint): (r: seq<Unit16>)
    requires IsValidCodePoint(u)
    ensures |r| == Width(u)
    ensures TrailLength(r[0]) == |r| - 1
    ensures |r| == 2 ==> IsTrail(r[1])
  {
    if u <= 0xFFFF then
      [u]
    else
      var v := u - 0x1_0000;
      [0xD800 + v / 0x400, 0xDC00 + v % 0x400]
  }

  // ---------------------------------------------------------------------------
  // Properties
  // ---------------------------------------------------------------------------

  /** The surrogate pairs and the code points above 0xFFFF are in one-to-one correspondence:
      `CombineSurrogate` inverts `Encode` there, and `Encode` inverts `CombineSurrogate`. */
  lemma SurrogatePairs(w1: Unit16, w2: Unit16, c: CodePoint)
    ensures IsFirstSurrogate(w1) && IsSecondSurrogate(w2) ==> Encode(CombineSurrogate(w1, w2)) == [w1, w2]
    ensures 0x1_0000 <= c <= 0x10_FFFF ==>
              var e := Encode(c);
              |e| == 2 && IsFirstSurrogate(e[0]) && IsSecondSurrogate(e[1]) && CombineSurrogate(e[0], e[1]) == c
  {
    if IsFirstSurrogate(w1) && IsSecondSurrogate(w2) {
      DivMod1024(0x36, w1 - 0xD800);
      DivMod1024(0x37, w2 - 0xDC00);
      DivMod1024(w1 - 0xD800, w2 - 0xDC00);
    }
    if 0x1_0000 <= c <= 0x10_FFFF {
      var v := c - 0x1_0000;
      DivMod1024(v / 0x400, v % 0x400);
    }
  }

  lemma DivMod1024(q: nat, r: nat)
    requires r < 0x400
    ensures (q * 0x400 + r) / 0x400 == q && (q * 0x400 + r) % 0x400 == r
  {
  }

  /** Decoding the encoding of `c`, whatever follows it, yields `c` after `Width(c)` units;
      the unchecked decoder agrees. */
  lemma RoundTrip(c: CodePoint, rest: seq<Unit16>)
    requires IsValidCodePoint(c)
    ensures Decode(Encode(c) + rest) == Decoded(c, Width(c))
    ensures DecodeValid(Encode(c) + rest) == Decoded(c, Width(c))
  {
    var e := Encode(c);
    assert (e + rest)[0] == e[0];
    if |e| == 2 {
      assert (e + rest)[1] == e[1];
      SurrogatePairs(e[0], e[1], c);
    }
  }

  /** A decoded code point was written as its encoding. */
  lemma DecodeSound(s: seq<Unit16>)
    requires IsValidCodePoint(Decode(s).value)
    ensures s[..Decode(s).consumed] == Encode(Decode(s).value)
  {
    if Decode(s).consumed == 2 {
      SurrogatePairs(s[0], s[1], 0);
    }
  }

  /** Wherever the validating decoder accepts, the unchecked decoder returns the same thing. */
  lemma DecodeValidAgrees(s: seq<Unit16>)
    requires IsValidCodePoint(Decode(s).value)
    ensures |s| > 0 && (0xD800 <= s[0] <= 0xDFFF ==> |s| >= 2)
    ensures DecodeValid(s) == Decode(s)
  {
  }

  /** The outcomes of `decode` by the kind of the first unit, each with the units it consumes. */
  lemma DecodeCases(s: seq<Unit16>)
    requires |s| > 0
    ensures !IsFirstSurrogate(s[0]) && !IsSecondSurrogate(s[0]) ==> Decode(s) == Decoded(s[0], 1)
    ensures IsSecondSurrogate(s[0]) ==> Decode(s) == Decoded(Illegal, 1)
    ensures IsFirstSurrogate(s[0]) && |s| == 1 ==> Decode(s) == Decoded(Incomplete, 1)
    ensures IsFirstSurrogate(s[0]) && |s| > 1 && !IsSecondSurrogate(s[1]) ==> Decode(s) == Decoded(Illegal, 2)
    ensures IsFirstSurrogate(s[0]) && |s| > 1 && IsSecondSurrogate(s[1]) ==>
              Decode(s) == Decoded(CombineSurrogate(s[0], s[1]), 2)
  {
  }

  /** Every non-surrogate unit is a code point, and every code point up to 0xFFFF is a non-surrogate unit. */
  lemma SingleUnitsAreBmpCodePoints(w: Unit16)
    ensures IsValidCodePoint(w) <==> TrailLength(w) == 0
  {
  }

  /** `is_lead`/`is_trail` classify the units of an encoding: its first unit is a lead, and the
      second unit of a pair is a trail. */
  lemma EncodingUnits(c: CodePoint)
    requires IsValidCodePoint(c)
    ensures IsLead(Encode(c)[0]) && !IsTrail(Encode(c)[0])
    ensures |Encode(c)| == 2 ==> IsTrail(Encode(c)[1]) && !IsLead(Encode(c)[1])
  {
  }

  /** A decode that starts on a trail unit, a lone low surrogate, is `illegal` after one unit;
      a lead unit never decodes that way. */
  lemma DecodeAtTrail(s: seq<Unit16>)
    requires |s| > 0
    ensures IsTrail(s[0]) <==> Decode(s) == Decoded(Illegal, 1)
    ensures IsLead(s[0]) <==> !IsTrail(s[0])
  {
  }
}
