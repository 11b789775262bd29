# unicode.hpp in Dafny

A model of the header-only transcoding library `tcb::unicode`, covering:

- the code-point rules and the two sentinels `illegal` and `incomplete`;
- the three `utf_traits` codecs (UTF-8, UTF-16 and UTF-32), each with its validating `decode`, unchecked `decode_valid`, `width`, `trail_length`, `is_trail`/`is_lead` and buffer-returning `encode`;
- the `encoded_chars` buffer;
- the lazy `unicode_view` iterator;
- the `convert` loop.

Every decoder is a pure function from the units still to be read to a `Decoded(value, consumed)` pair. `consumed` is how far the C++ cursor advances, and errors travel in `value` as the sentinels, as in the source. Bit manipulation is written as arithmetic on disjoint fields; module `Bits` states that the two spellings agree.

Modules:

- `CodePoints`: `code_point`, `is_valid_codepoint`, `illegal`, `incomplete`.
- `Utf8`, `Utf16`, `Utf32`: the three codecs.
- `Codec`: selects a codec by code-unit width, as `utf_traits<CharType, sizeof(CharType)>` does.
- `Buffer`: `encoded_chars`.
- `Transcode`: `convert`, together with reference definitions `DecodeAll`/`EncodeAll` and the round trips.
- `View`: `unicode_view::iterator` as a state record over a fixed source sequence.
- `Bits`: masks and shifts against the model's arithmetic.
- `Scenarios`: concrete inputs, including the string the C++ tests convert.

`encode` is defined only for valid code points. So `convert` and the view are stated for well-formed sources, where every decode step yields a code point (`Transcode.WellFormed`).

## Model

| member | source | states |
|---|---|---|
| CodePoints.SentinelsAreNotCodePoints | include/tcb/unicode.hpp:39-49 | `illegal` and `incomplete` differ, neither is a valid code point, and valid code points are below 0x110000 |
| CodePoints.ValidCodePointRanges | include/tcb/unicode.hpp:42-49 | a value is valid exactly when it is below 0xD800 or in [0xE000, 0x10FFFF] |
| Utf8.ReadTrails | include/tcb/unicode.hpp:161-185 | the fall-through continuation loop leaves the cursor within the input and at most `count` bytes on; a completed loop has read exactly `count` bytes; an `incomplete` stop is at the end of input and an `illegal` stop has consumed the offending byte |
| Utf8.Decode | include/tcb/unicode.hpp:138-198 | empty input gives `incomplete` with nothing consumed; otherwise 1 to 4 bytes are consumed, never more than available; the result is a code point, `illegal` or `incomplete`; `incomplete` means the input was used up; an accepted code point consumed exactly its width |
| Utf8.Encode | include/tcb/unicode.hpp:254-274 | the encoding has `width(c)` bytes; its lead byte announces exactly the bytes that follow, and those are all continuation bytes |
| Utf8.DecodeValid | include/tcb/unicode.hpp:200-228 | the unchecked decoder assembles at most 21 bits |
| Utf8.LeadBytesAreEncodingLeads | include/tcb/unicode.hpp:93-107 | `trail_length(b) >= 0` exactly when `b` is the first byte of some code point's encoding, and then that code point's width is `trail_length(b) + 1` |
| Utf8.ReadTrailsAssembles | include/tcb/unicode.hpp:159-185 | with all announced continuation bytes present, the loop yields the closed-form payload of lead and continuation bits |
| Utf8.PayloadOfEncoding | include/tcb/unicode.hpp:216-274 | assembling the fields of `encode(c)` gives back `c`, for every width |
| Utf8.EncodingOfPayload | include/tcb/unicode.hpp:254-274 | a well-formed sequence whose payload has the width its lead announces is exactly the encoding of that payload |
| Utf8.RoundTrip | include/tcb/unicode.hpp:111-274 | for every valid `c` and any following bytes, `decode` and `decode_valid` both return `c` and consume `width(c)` bytes |
| Utf8.DecodeSound | include/tcb/unicode.hpp:187-196 | whatever `decode` accepts was written as the shortest encoding of the value; no overlong form is accepted |
| Utf8.DecodeValidAgrees | include/tcb/unicode.hpp:200-228 | wherever `decode` accepts, the input is long enough for `decode_valid`, which returns the same value and length |
| Utf8.InvalidLeadIsIllegal | include/tcb/unicode.hpp:147-150 | a byte that cannot lead gives `illegal` with one byte consumed |
| Utf8.BadContinuationIsIllegal | include/tcb/unicode.hpp:163-185 | the first announced position holding a non-continuation byte gives `illegal`, with that byte consumed |
| Utf8.TruncatedIsIncomplete | include/tcb/unicode.hpp:163-180 | a valid lead followed only by continuation bytes, but fewer than announced, gives `incomplete` with the whole input consumed |
| Utf8.EncodingPrefixIsIncomplete | include/tcb/unicode.hpp:163-180 | every non-empty proper prefix of a multi-byte encoding gives `incomplete` |
| Utf8.CompleteSequence | include/tcb/unicode.hpp:159-196 | a complete, syntactically well-formed sequence gives its payload when that is a valid code point of exactly this width, and `illegal` otherwise (a surrogate, a value above 0x10FFFF, or an overlong form); either way the whole sequence is consumed |
| Utf8.EncodingUnits | include/tcb/unicode.hpp:127-136 | `is_lead` holds of the first byte of every encoding and `is_trail` (and not `is_lead`) of every later byte |
| Utf8.DecodeAtTrail | include/tcb/unicode.hpp:147-150 | a decode starting on a byte that is not a lead is `illegal` after one byte |
| Utf16.CombineSurrogate | include/tcb/unicode.hpp:293-296 | a combined surrogate pair is a valid code point in [0x10000, 0x10FFFF] |
| Utf16.Decode | include/tcb/unicode.hpp:323-340 | the same outcome and consumption guarantees as UTF-8, with at most 2 units |
| Utf16.DecodeValid | include/tcb/unicode.hpp:342-351 | one unit is returned as is; two units give a value in [0x10000, 0x10FFFF] |
| Utf16.Encode | include/tcb/unicode.hpp:374-384 | the encoding has `width(u)` units; a two-unit encoding is a lead followed by a trail |
| Utf16.SurrogatePairs | include/tcb/unicode.hpp:293-296 | combining a high and a low surrogate and encoding the result gives back the pair; every code point from 0x10000 encodes as a high and a low surrogate that combine back to it |
| Utf16.RoundTrip | include/tcb/unicode.hpp:323-384 | for every valid `c` and any following units, `decode` and `decode_valid` return `c` and consume `width(c)` units |
| Utf16.DecodeSound | include/tcb/unicode.hpp:323-340 | whatever `decode` accepts was written as the encoding of the value |
| Utf16.DecodeValidAgrees | include/tcb/unicode.hpp:342-351 | wherever `decode` accepts, `decode_valid` has the units it reads and returns the same value and length |
| Utf16.DecodeCases | include/tcb/unicode.hpp:323-340 | a non-surrogate is returned after one unit; a leading low surrogate is `illegal` after one; a lone high surrogate at the end is `incomplete`; a high surrogate followed by a non-low unit is `illegal` after two; a pair gives `combine_surrogate` after two |
| Utf16.SingleUnitsAreBmpCodePoints | include/tcb/unicode.hpp:298-305 | a 16-bit unit is a valid code point exactly when its trail length is 0 |
| Utf16.EncodingUnits | include/tcb/unicode.hpp:309-321 | `is_lead` holds of the first unit of every encoding, and the second unit of a pair is a trail and not a lead |
| Utf16.DecodeAtTrail | include/tcb/unicode.hpp:309-335 | a decode yields `illegal` after one unit exactly when it starts on a trail unit (a lone low surrogate); `is_lead` is the negation of `is_trail` |
| Utf32.Decode | include/tcb/unicode.hpp:413-422 | empty input gives `incomplete`; otherwise exactly one unit is consumed and the result is a code point or `illegal` |
| Utf32.DecodeValid | include/tcb/unicode.hpp:407-411 | the unchecked decoder reads exactly one unit |
| Utf32.Encode | include/tcb/unicode.hpp:438-441 | the encoding is one unit |
| Utf32.RoundTrip | include/tcb/unicode.hpp:407-441 | `decode` and `decode_valid` of `encode(c)` return `c` after one unit |
| Utf32.DecodeChecksUnit | include/tcb/unicode.hpp:413-422 | a unit decodes to a code point exactly when it is one, and then to itself; any other unit, the sentinel values included, gives `illegal` |
| Utf32.DecodeSound | include/tcb/unicode.hpp:407-422 | an accepted unit is its own encoding, and `decode_valid` agrees |
| Utf32.UnitClasses | include/tcb/unicode.hpp:392-422 | every unit is a lead and none a trail; `trail_length` is 0 exactly when `decode` yields a code point and -1 exactly when it yields `illegal` |
| Codec.Decode | include/tcb/unicode.hpp:51-52 | the decoder chosen by unit width keeps the common guarantees: consumption bounded by `max_width` and the input, and only code points or sentinels as results |
| Codec.Encode | include/tcb/unicode.hpp:51-52 | the encoding fits the form's unit width and has between 1 and `max_width` units |
| Codec.MaxWidthFillsFourBytes | include/tcb/unicode.hpp:84 | `max_width * sizeof(CharType)` is 4 in every form, which is the `encoded_chars` array size in bytes |
| Codec.RoundTrip | include/tcb/unicode.hpp:51-52 | in every form, `decode` of `encode(c)` plus any rest returns `c` after `width(c)` units |
| Codec.DecodeSound | include/tcb/unicode.hpp:51-52 | in every form, an accepted value was written as its encoding |
| Buffer.EncodeChars | include/tcb/unicode.hpp:54-86 | the buffer `encode` returns fits the `4 / sizeof(CharType)` array, is non-empty, and decodes back to the code point using all of its units |
| Buffer.EqualIffSameUnits | include/tcb/unicode.hpp:75-81 | `operator==` holds exactly when the sizes and the units in use are equal |
| Transcode.Convert | include/tcb/unicode.hpp:619-631 | the output fits the target unit width and is non-empty for a non-empty source |
| Transcode.DecodeAll | include/tcb/unicode.hpp:626-627 | decoding a well-formed source gives only valid code points, no more of them than units |
| Transcode.EncodeAll | include/tcb/unicode.hpp:628 | encoding `n` code points gives between `n` and `max_width * n` units |
| Transcode.ConvertEncodesDecoded | include/tcb/unicode.hpp:624-631 | `convert` is encoding, in the target form, the code points the source decodes to |
| Transcode.DecodeAllEncodeAll | include/tcb/unicode.hpp:624-631 | any sequence of code points, encoded, is well formed and decodes back to itself |
| Transcode.EncodeAllDecodeAll | include/tcb/unicode.hpp:624-631 | a well-formed source is exactly the concatenated encodings of its code points |
| Transcode.ConvertPreservesCodePoints | include/tcb/unicode.hpp:624-631 | the output of `convert` is well formed and carries the same code points as the source |
| Transcode.ConvertRoundTrip | include/tcb/unicode.hpp:624-631 | converting from X to Y and back gives the original well-formed X source, for all nine pairs of forms |
| Transcode.ConvertIdentity | include/tcb/unicode.hpp:624-631 | converting a well-formed source to its own form returns it unchanged |
| Transcode.ConvertAsWritten | include/tcb/unicode.hpp:624-631 | with a positional output iterator, the code as written needs room at `out` only for the widest single encoding, leaves the array's length alone, and returns the iterator it was given, unmoved |
| Transcode.ConvertInto | include/tcb/unicode.hpp:624-631 | with the iterator `encode` returns kept, the conversion lands at `out`, the returned iterator stands just past it, and the rest of the array is untouched |
| Transcode.ConvertAsWrittenOverwrites | include/tcb/unicode.hpp:628 | on "ab" into a two-byte array, the code as written leaves `b` then `0` with the iterator unmoved, where the intended result is `ab` with the iterator at 2; into a one-byte array it is accepted as written and leaves only `b` |
| Transcode.ConvertAsWrittenLosesPosition | include/tcb/unicode.hpp:628-630 | room for the whole output is room for each encoding, and for every non-empty source the iterator returned as written differs from the one past the output |
| View.Refill | include/tcb/unicode.hpp:484-488 | decoding and encoding the next code point moves the cursor forward and resets the index to 0; the new buffer followed by the conversion of the rest is the conversion from the old cursor |
| View.Construct | include/tcb/unicode.hpp:463-470 | a constructed iterator satisfies the invariant and is done exactly when the range is empty |
| View.Begin | include/tcb/unicode.hpp:536 | `begin()` satisfies the invariant and is done exactly when the source is empty |
| View.End | include/tcb/unicode.hpp:540 | `end()` is done |
| View.Next | include/tcb/unicode.hpp:482-490 | `++` leaves the cursor within the source, at the start of a well-formed rest of it |
| View.BeginEqualsEndIffEmpty | include/tcb/unicode.hpp:536-540 | `begin() == end()` exactly when the source is empty |
| View.NextPreservesInv | include/tcb/unicode.hpp:482-490 | `++` on a non-done iterator gives one that is done or has its index inside its buffer |
| View.DoneIteratorsAreEqual | include/tcb/unicode.hpp:499-520 | two done iterators compare equal, and comparing with `end()` is exactly the `done()` test |
| View.EqualToDoneIsDone | include/tcb/unicode.hpp:499-506 | an iterator equal to a done one is done |
| View.EqualIsEquivalence | include/tcb/unicode.hpp:499-506 | iterator `==` is reflexive, symmetric and transitive |
| View.BeginRemaining | include/tcb/unicode.hpp:463-470 | the units `begin()` has yet to produce are exactly the conversion of the whole source |
| View.DoneRemaining | include/tcb/unicode.hpp:517-520 | a done iterator has nothing left to produce |
| View.NextStep | include/tcb/unicode.hpp:472-490 | on a non-done iterator, `*it` is the first unit it has yet to produce, and `++` drops exactly that unit |
| View.RefillStep | include/tcb/unicode.hpp:484-488 | when the last unit of the buffer is passed and source remains, `++` refills and has the conversion of the rest ahead |
| View.AdvanceStep | include/tcb/unicode.hpp:484 | otherwise `++` only moves the 8-bit index on by one, without wrapping |
| View.Materialize | include/tcb/unicode.hpp:546-549 | walking from `begin()` with `++` until `end()`, collecting `*it`, yields exactly `convert`'s output for the same source |
| Bits.TrailTest | include/tcb/unicode.hpp:127-131 | `(c & 0xC0) == 0x80` is the range test 0x80 <= c < 0xC0 |
| Bits.PayloadMask | include/tcb/unicode.hpp:170 | `tmp & 0x3F` is the byte modulo 64 |
| Bits.LeadMask | include/tcb/unicode.hpp:159 | `lead & ((1 << (6 - trail_size)) - 1)` keeps 5, 4 or 3 low bits, as the model's lead payload does |
| Bits.AppendSixBits | include/tcb/unicode.hpp:170 | `(c << 6) \| t` on a 32-bit word is `c * 64 + t` for a six-bit `t` and no overflow |
| Bits.Utf8LeadBytes | include/tcb/unicode.hpp:254-274 | the UTF-8 encoder's lead bytes `(value >> 6) \| 0xC0`, `(value >> 12) \| 0xE0` and `(value >> 18) \| 0xF0`, read as integers, are the first byte of the model's encoding of that code point |
| Bits.Utf8Fields | include/tcb/unicode.hpp:254-274 | the UTF-8 encoder's shifts, masks and marker bits are the model's divisions, remainders and additions |
| Bits.SurrogateFields | include/tcb/unicode.hpp:380-382 | `0xD800 \| (u >> 10)` and `0xDC00 \| (u & 0x3FF)` are additions of the quotient and remainder by 1024 |
| Bits.CombineFields | include/tcb/unicode.hpp:293-296 | `combine_surrogate`'s shift-and-or is the model's sum of the two 10-bit fields |
| Scenarios.AsciiConvertsUnchanged | test/test_unicode.cpp:103-119 | "ab" is well formed in every form and converts to "ab" between every pair of forms |
| Scenarios.AstralEncodings | include/tcb/unicode.hpp:254-274 | U+1F60E encodes as F0 9F 98 8E in UTF-8 (these lines) and as D83D DE0E in UTF-16 (lines 374-384); the test file names this code point only in a commented-out test string |
| Scenarios.AstralConverts | include/tcb/unicode.hpp:624-631 | the UTF-8 bytes of U+1F60E convert to its UTF-16 surrogate pair |
| Scenarios.OverlongLeadIsIllegal | include/tcb/unicode.hpp:147-150 | the overlong C0 81 is rejected at its lead byte, since `trail_length(0xC0)` is -1, with one byte consumed |
| Scenarios.OverlongIsIllegal | include/tcb/unicode.hpp:192-194 | the overlong E0 80 80 is assembled in full and rejected by the width check, with all three bytes consumed |
| Scenarios.OutOfRangeIsIllegal | include/tcb/unicode.hpp:187-190 | the encoded surrogate ED A0 80 and the value F4 90 80 80 (0x110000) are rejected |
| Scenarios.TruncatedIsIncomplete | include/tcb/unicode.hpp:163-180 | F0 9F is `incomplete` with both bytes consumed |
| Scenarios.LoneSurrogates | include/tcb/unicode.hpp:326-335 | a lone low surrogate is `illegal`, and a high surrogate at the end of input is `incomplete` |

The members without a contract of their own model these lines. Their behaviour is stated by the rows above that use them or are about them (the `EncodingUnits`, `DecodeAtTrail` and `UnitClasses` lemmas for the unit classifiers):

- `CodePoints.IsValidCodePoint`: `is_valid_codepoint` (include/tcb/unicode.hpp:42-49).
- `Utf8.TrailLength`, `Utf8.Width`, `Utf8.IsTrail` and `Utf8.IsLead`: lines 93-136.
- `Utf16.IsFirstSurrogate`, `Utf16.IsSecondSurrogate`, `Utf16.TrailLength`, `Utf16.IsTrail`, `Utf16.IsLead` and `Utf16.Width`: lines 283-321 and 355-358.
- `Utf32.TrailLength`, `Utf32.IsTrail`, `Utf32.IsLead` and `Utf32.Width`: lines 392-405 and 426-429.
- `Buffer.Equal`: `encoded_chars::operator==` (lines 75-81).
- `Buffer.EncodedChars.Size`, `Buffer.EncodedChars.At` and `Buffer.Empty`: `size()`, `operator[]` and the default constructor (lines 57, 71-73, 84-85).
- `View.Deref`: `operator*` (lines 472-475).
- `View.Equal`: the iterator's `operator==` (lines 499-506).
- `Iterator.Done`: `done()` (lines 517-520).

## Left out

- The output-iterator overloads `encode(value, out)` are not modelled separately. They write the same units as the buffer-returning `encode`; only `convert`'s use of the returned iterator is modelled (`Transcode.ConvertInto`).
- Encoding a sentinel is left out. The view and `convert` pass `illegal`/`incomplete` straight to `encode`. A UTF-8 or UTF-16 target truncates the sentinel through its `char`/`char16_t` casts. A UTF-32 target writes it out unchanged as a 0xFFFFFFFF or 0xFFFFFFFE unit. In the model `encode` requires a valid code point, so `convert` and the view are stated only for well-formed sources.
- Single-pass input (an `istreambuf_iterator` source) is not modelled. The source is a finite sequence, and iterator positions are indices into it, which is the multi-pass case. The `iterator_category` selection is left out with it.
- Type machinery is left out: `is_compatible_container`, the container conversion operator (its effect is `View.Materialize`), the `TCB_LIKELY`/`TCB_CONSTEXPR14` macros, and platform `wchar_t` width detection. The three codecs are selected by a width tag instead.
- `to_utf_string` is left out. Its capacity reservation is a performance hint. It and the `as_utf*`/`to_u*string` wrappers only forward to the view or to `convert` with a `back_inserter`.
- `operator->`, postfix `++` and `!=` are not modelled. They are `&*it`, a copy followed by prefix `++`, and `!(a == b)`.
- The padding slots of `encoded_chars` past `size_` are not modelled; the buffer is the sequence of units in use. The slots are zero, and the only read of one is the dereference of a done iterator, which the model excludes (see View.Deref). On a UTF-32 target that read is `chars_[1]`, past the one-element array.
- View.Deref: dereferencing a done iterator (past `end()`) is outside the iterator protocol, so `*it` requires the index to lie inside the buffer.
- View.Next: `++` on a done iterator is not given a meaning beyond the 8-bit index arithmetic. Only iterators reachable from `begin()` are described.
- Bits.Utf8Fields, Bits.AppendSixBits, Bits.SurrogateFields, Bits.CombineFields: these are stated as identities between 32-bit machine words. The last step, that this overflow-free word arithmetic equals integer arithmetic, is not proved for them. The byte masks (`Bits.TrailTest`, `Bits.PayloadMask`, `Bits.LeadMask`) and the UTF-8 lead bytes (`Bits.Utf8LeadBytes`) are proved against the model's functions directly.

## Findings

| source | as written | input that shows it | evidently intended | confidence | as-written member | corrected member |
|---|---|---|---|---|---|---|
| include/tcb/unicode.hpp:628 | `convert` calls `encode(c, out)` and discards the advanced iterator it returns, then returns the original `out` | "ab" copied UTF-8 to UTF-8 through a pointer into a two-byte array: the array ends as `b`, 0 and the returned pointer has not moved | `out = encode(c, out);`, so each encoding follows the previous one and the returned iterator is past the output; with `back_inserter` both behave the same | high, not executed | Transcode.ConvertAsWritten (exhibited by Transcode.ConvertAsWrittenOverwrites) | Transcode.ConvertInto |
