/**
 The three codecs behind one interface, selected by code-unit width, as the
 `utf_traits<CharType, sizeof(CharType)>` specialisations are. Units of every
 width are carried as `nat`; `Fits` says a sequence holds units of the width
 the form's character type has, which the C++ element type guarantees.
 */
module Codec {
  import opened CodePoints
  import Utf8
  import Utf16
  import Utf32

  /** The encoding form, keyed on the size of the character type. */
  datatype Form = Utf8Form | Utf16Form | Utf32Form

  /** `sizeof(CharType)` for the form. */
  function UnitBytes(f: Form): nat
  {
    match f
    case Utf8Form => 1
    case Utf16Form => 2
    case Utf32Form => 4
  }

  /** One more than the largest unit value of the form. */
  function UnitBound(f: Form): nat
  {
    match f
    case Utf8Form => 0x100
    case Utf16Form => 0x1_0000
    case Utf32Form => 0x1_0000_0000
  }

  predicate Fits(f: Form, s: seq<nat>)
  {
    forall i :: 0 <= i < |s| ==> s[i] < UnitBound(f)
  }

  function MaxWidth(f: Form): nat
  {
    match f
    case Utf8Form => Utf8.MaxWidth
    case Utf16Form => Utf16.MaxWidth
    case Utf32Form => Utf32.MaxWidth
  }

  function Width(f: Form, c: CodePoint): nat
  {
    match f
    case Utf8Form => Utf8.Width(c)
    case Utf16Form => Utf16.Width(c)
    case Utf32Form => Utf32.Width(c)
  }

  function Decode(f: Form, s: seq<nat>): (r: Decoded)
    requires Fits(f, s)
    ensures |s| == 0 ==> r == Decoded(Incomplete, 0)
    ensures |s| > 0 ==> 1 <= r.consumed <= MaxWidth(f) && r.consumed <= |s|
    ensures IsDecodeOutcome(r.value)
    ensures r.value == Incomplete ==> r.consumed == |s|
    ensures IsValidCodePoint(r.value) ==> r.consumed == Width(f, r.value)
  {
    match f
    case Utf8Form => Utf8.Decode(s)
    case Utf16Form => Utf16.Decode(s)
    case Utf32Form => Utf32.Decode(s)
  }

  function Encode(f: Form, c: CodePoint): (r: seq<nat>)
    requires IsValidCodePoint(c)
    ensures Fits(f, r)
    ensures |r| == Width(f, c) && 1 <= |r| <= MaxWidth(f)
  {
    match f
    case Utf8Form => Utf8.Encode(c)
    case Utf16Form => Utf16.Encode(c)
    case Utf32Form => Utf32.Encode(c)
  }

  /** The widest encoding of a form fills the four bytes of an `encoded_chars` buffer exactly. */
  lemma MaxWidthFillsFourBytes(f: Form)
    ensures MaxWidth(f) * UnitBytes(f) == 4
  {
  }

  /** In every form, decoding the encoding of `c` yields `c` and consumes exactly its width. */
  lemma RoundTrip(f: Form, c: CodePoint, rest: seq<nat>)
    requires IsValidCodePoint(c) && Fits(f, rest)
    ensures Fits(f, Encode(f, c) + rest)
    ensures Decode(f, Encode(f, c) + rest) == Decoded(c, Width(f, c))
  {
    var s := Encode(f, c) + rest;
    assert forall i :: 0 <= i < |s| ==> s[i] < UnitBound(f);
    match f
    case Utf8Form => Utf8.RoundTrip(c, rest);
    case Utf16Form => Utf16.RoundTrip(c, rest);
    case Utf32Form => Utf32.RoundTrip(c, rest);
  }

  /** In every form, a decoded code point was written as exactly its encoding. */
  lemma DecodeSound(f: Form, s: seq<nat>)
    requires Fits(f, s) && IsValidCodePoint(Decode(f, s).value)
    ensures s[..Decode(f, s).consumed] == Encode(f, Decode(f, s).value)
  {
    match f
    case Utf8Form => Utf8.DecodeSound(s);
    case Utf16Form => Utf16.DecodeSound(s);
    case Utf32Form => Utf32.DecodeSound(s);
  }

  /** What remains after a decode still holds units of the form. */
  lemma FitsSlice(f: Form, s: seq<nat>, i: nat, j: nat)
    requires Fits(f, s) && i <= j <= |s|
    ensures Fits(f, s[i..j])
  {
  }
}
