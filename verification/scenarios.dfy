/**
 Concrete inputs, stated as facts about the model: the string the C++ tests
 convert between every pair of forms, a code point outside the Basic
 Multilingual Plane, and the ill-formed UTF-8 sequences that sections 3 and 10
 of RFC 3629 warn about (overlong forms, encoded surrogates, values past U+10FFFF).
 */
module Scenarios {
  import opened CodePoints
  import opened Codec
  import opened Transcode
  import Utf8
  import Utf16

  /** "ab" is the same two units in every form, and converting it between any two forms keeps it. */
  lemma AsciiConvertsUnchanged(from: Form, to: Form)
    ensures Fits(from, [0x61, 0x62]) && WellFormed(from, [0x61, 0x62])
    ensures Convert(from, to, [0x61, 0x62]) == [0x61, 0x62]
  {
    var s: seq<nat> := [0x61, 0x62];
    assert s[1..] == [0x62];
    assert s[1..][1..] == [];
  }

  /** U+1F60E is four bytes in UTF-8 and a surrogate pair in UTF-16. */
  lemma AstralEncodings()
    ensures Utf8.Encode(0x1_F60E) == [0xF0, 0x9F, 0x98, 0x8E]
    ensures Utf16.Encode(0x1_F60E) == [0xD83D, 0xDE0E]
  {
  }

  /** UTF-8 to UTF-16 of U+1F60E yields its surrogate pair. */
  lemma AstralConverts()
    ensures Fits(Utf8Form, [0xF0, 0x9F, 0x98, 0x8E]) && WellFormed(Utf8Form, [0xF0, 0x9F, 0x98, 0x8E])
    ensures Convert(Utf8Form, Utf16Form, [0xF0, 0x9F, 0x98, 0x8E]) == [0xD83D, 0xDE0E]
  {
    var s: seq<nat> := [0xF0, 0x9F, 0x98, 0x8E];
    AstralEncodings();
    RoundTrip(Utf8Form, 0x1_F60E, []);
    assert Encode(Utf8Form, 0x1_F60E) + [] == s;
    assert s[4..] == [];
  }

  /** The two-byte overlong form of U+0001 never gets past its lead: 0xC0 cannot lead at all. */
  lemma OverlongLeadIsIllegal()
    ensures Utf8.TrailLength(0xC0) == -1
    ensures Utf8.Decode([0xC0, 0x81]) == Decoded(Illegal, 1)
  {
  }

  /** The three-byte overlong form of U+0000 is assembled in full and then fails the width check. */
  lemma OverlongIsIllegal()
    ensures Utf8.TrailLength(0xE0) == 2 && Utf8.Width(0) == 1
    ensures Utf8.Decode([0xE0, 0x80, 0x80]) == Decoded(Illegal, 3)
  {
    Utf8.ReadTrailsAssembles([0xE0, 0x80, 0x80], 2);
  }

  /** An encoded surrogate (U+D800) and the first value past U+10FFFF are rejected. */
  lemma OutOfRangeIsIllegal()
    ensures Utf8.Decode([0xED, 0xA0, 0x80]).value == Illegal
    ensures Utf8.Decode([0xF4, 0x90, 0x80, 0x80]).value == Illegal
  {
    Utf8.ReadTrailsAssembles([0xED, 0xA0, 0x80], 2);
    Utf8.ReadTrailsAssembles([0xF4, 0x90, 0x80, 0x80], 3);
  }

  /** A four-byte sequence cut after two bytes is incomplete, not illegal. */
  lemma TruncatedIsIncomplete()
    ensures Utf8.Decode([0xF0, 0x9F]) == Decoded(Incomplete, 2)
  {
  }

  /** A lone low surrogate is illegal in UTF-16; a high one at the end of input is incomplete. */
  lemma LoneSurrogates()
    ensures Utf16.Decode([0xDC00]) == Decoded(Illegal, 1)
    ensures Utf16.Decode([0xD800]) == Decoded(Incomplete, 1)
  {
  }
}
