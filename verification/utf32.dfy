/**
 The UTF-32 codec (code units four bytes wide): one unit per code point, with
 decode checking the unit against the code point rules.
 */
module Utf32 {
  import opened CodePoints

  /** One UTF-32 code unit, as `char32_t`. */
  type Unit32 = CodePoint

  const MaxWidth: nat := 1

  /** 0 for a unit that is a code point, -1 for one that is not. */
  function TrailLength(c: Unit32): int
  {
    if IsValidCodePoint(c) then 0 else -1
  }

  predicate IsTrail(c: Unit32)
  {
    false
  }

  predicate IsLead(c: Unit32)
  {
    true
  }

  function Width(u: nat): nat
  {
    1
  }

  function Decode(s: seq<Unit32>): (r: Decoded)
    ensures |s| == 0 ==> r == Decoded(Incomplete, 0)
    ensures |s| > 0 ==> r.consumed == 1
    ensures |s| > 0 ==> r.value != Incomplete
    ensures IsDecodeOutcome(r.value)
    ensures r.value == Incomplete ==> r.consumed == |s|
    ensures IsValidCodePoint(r.value) ==> r.consumed == Width(r.value)
  {
    if |s| == 0 then Decoded(Incomplete, 0)
    else
      var c := s[0];
      if !IsValidCodePoint(c) then Decoded(Illegal, 1)
      else Decoded(c, 1)
  }

  /** Unchecked decode: the unit itself. */
  function DecodeValid(s: seq<Unit32>): (r: Decoded)
    requires |s| > 0
    ensures r.consumed == 1
  {
    Decoded(s[0], 1)
  }

  function Encode(u: CodePoint): (r: seq<Unit32>)
    requires IsValidCodePoint(u)
    ensures |r| == Width(u)
  {
    [u]
  }

  /** Decoding the encoding of `c`, whatever follows it, yields `c` after one unit;
      the unchecked decoder agrees. */
  lemma RoundTrip(c: CodePoint, rest: seq<Unit32>)
    requires IsValidCodePoint(c)
    ensures Decode(Encode(c) + rest) == Decoded(c, Width(c))
    ensures DecodeValid(Encode(c) + rest) == Decoded(c, Width(c))
  {
  }

  /** A unit decodes to a code point exactly when it is one (and then to itself); any other unit,
      the sentinel values included, decodes to `Illegal`. */
  lemma DecodeChecksUnit(s: seq<Unit32>)
    requires |s| > 0
    ensures IsValidCodePoint(Decode(s).value) <==> IsValidCodePoint(s[0])
    ensures IsValidCodePoint(s[0]) ==> Decode(s).value == s[0]
    ensures !IsValidCodePoint(s[0]) ==> Decode(s).value == Illegal
  {
  }

  /** A decoded code point was written as its encoding, and the unchecked decoder agrees. */
  lemma DecodeSound(s: seq<Unit32>)
    requires IsValidCodePoint(Decode(s).value)
    ensures s[..Decode(s).consumed] == Encode(Decode(s).value)
    ensures DecodeValid(s) == Decode(s)
  {
  }

  /** Every unit is a lead and none is a trail, and `trail_length` tells in advance what `decode`
      will make of the unit: 0 exactly when it yields a code point, -1 exactly when `illegal`. */
  lemma UnitClasses(s: seq<Unit32>)
    requires |s| > 0
    ensures IsLead(s[0]) && !IsTrail(s[0])
    ensures TrailLength(s[0]) == 0 <==> IsValidCodePoint(Decode(s).value)
    ensures TrailLength(s[0]) == -1 <==> Decode(s).value == Illegal
  {
  }
}
