/**
 `convert`: the decode-then-encode loop over a whole source range, and what it
 preserves. The source is a finite sequence of units; the loop's output is the
 concatenation of one encoding per decoded code point, which is what the
 `back_inserter` the string helpers pass to it collects.

 `encode` is only defined for code points, so the conversions here are stated
 for well-formed sources: ones whose every decode step yields a code point.
 */
module Transcode {
  import opened CodePoints
  import opened Codec

  /** Decoding from the front, again and again, meets only code points until the input is used up. */
  predicate WellFormed(f: Form, s: seq<nat>)
    requires Fits(f, s)
    decreases |s|
  {
    |s| == 0 ||
    (var d := Decode(f, s);
     FitsSlice(f, s, d.consumed, |s|);
     IsValidCodePoint(d.value) && WellFormed(f, s[d.consumed..]))
  }

  predicate AllValid(cps: seq<CodePoint>)
  {
    forall i :: 0 <= i < |cps| ==> IsValidCodePoint(cps[i])
  }

  /** The code points of a well-formed source, in order. */
  function DecodeAll(f: Form, s: seq<nat>): (r: seq<CodePoint>)
    requires Fits(f, s) && WellFormed(f, s)
    ensures AllValid(r)
    ensures |r| <= |s|
    decreases |s|
  {
    if |s| == 0 then []
    else
      var d := Decode(f, s);
      FitsSlice(f, s, d.consumed, |s|);
      [d.value] + DecodeAll(f, s[d.consumed..])
  }

  /** The encodings of a sequence of code points, one after another. */
  function EncodeAll(f: Form, cps: seq<CodePoint>): (r: seq<nat>)
    requires AllValid(cps)
    ensures Fits(f, r)
    ensures |cps| <= |r| <= MaxWidth(f) * |cps|
  {
    if |cps| == 0 then []
    else Encode(f, cps[0]) + EncodeAll(f, cps[1..])
  }

  /**
   `convert<to>(first, last, out)` on a well-formed source: decode one code point
   in the source form, append its encoding in the target form, until the source
   is used up. (The C++ loop drops the iterator `encode` returns; see
   `ConvertAsWritten` below.)
   */
  function Convert(from: Form, to: Form, s: seq<nat>): (r: seq<nat>)
    requires Fits(from, s) && WellFormed(from, s)
    ensures Fits(to, r)
    ensures |s| > 0 ==> |r| > 0
    decreases |s|
  {
    if |s| == 0 then []
    else
      var d := Decode(from, s);
      FitsSlice(from, s, d.consumed, |s|);
      Encode(to, d.value) + Convert(from, to, s[d.consumed..])
  }

  // ---------------------------------------------------------------------------
  // Properties
  // ---------------------------------------------------------------------------

  /** One turn of the `convert` loop. */
  lemma ConvertUnfold(from: Form, to: Form, s: seq<nat>)
    requires Fits(from, s) && WellFormed(from, s) && |s| > 0
    ensures var d := Decode(from, s);
            IsValidCodePoint(d.value) && Fits(from, s[d.consumed..]) && WellFormed(from, s[d.consumed..]) &&
            Convert(from, to, s) == Encode(to, d.value) + Convert(from, to, s[d.consumed..])
  {
    var d := Decode(from, s);
    FitsSlice(from, s, d.consumed, |s|);
  }

  lemma EncodeAllCons(f: Form, c: CodePoint, cps: seq<CodePoint>)
    requires IsValidCodePoint(c) && AllValid(cps)
    ensures AllValid([c] + cps)
    ensures EncodeAll(f, [c] + cps) == Encode(f, c) + EncodeAll(f, cps)
  {
    assert ([c] + cps)[1..] == cps;
  }

  /** Converting is encoding, in the target form, the code points the source decodes to. */
  lemma {:induction false} ConvertEncodesDecoded(from: Form, to: Form, s: seq<nat>)
    requires Fits(from, s) && WellFormed(from, s)
    ensures Convert(from, to, s) == EncodeAll(to, DecodeAll(from, s))
    decreases |s|
  {
    if |s| > 0 {
      var d := Decode(from, s);
      FitsSlice(from, s, d.consumed, |s|);
      ConvertEncodesDecoded(from, to, s[d.consumed..]);
      var cps := DecodeAll(from, s);
      assert cps[0] == d.value && cps[1..] == DecodeAll(from, s[d.consumed..]);
    }
  }

  /** Any sequence of code points, encoded, is well formed and decodes back to itself. */
  lemma {:induction false} DecodeAllEncodeAll(f: Form, cps: seq<CodePoint>)
    requires AllValid(cps)
    ensures WellFormed(f, EncodeAll(f, cps))
    ensures DecodeAll(f, EncodeAll(f, cps)) == cps
    decreases |cps|
  {
    if |cps| > 0 {
      var rest := EncodeAll(f, cps[1..]);
      var s := EncodeAll(f, cps);
      assert s == Encode(f, cps[0]) + rest;
      RoundTrip(f, cps[0], rest);
      assert s[Width(f, cps[0])..] == rest;
      DecodeAllEncodeAll(f, cps[1..]);
      assert cps == [cps[0]] + cps[1..];
    }
  }

  /** One turn of the decoding loop. */
  lemma DecodeAllUnfold(f: Form, s: seq<nat>)
    requires Fits(f, s) && WellFormed(f, s) && |s| > 0
    ensures var d := Decode(f, s);
            IsValidCodePoint(d.value) && Fits(f, s[d.consumed..]) && WellFormed(f, s[d.consumed..]) &&
            DecodeAll(f, s) == [d.value] + DecodeAll(f, s[d.consumed..])
  {
    var d := Decode(f, s);
    FitsSlice(f, s, d.consumed, |s|);
  }

  /** A well-formed source is the encodings of its code points and nothing else. */
  lemma {:induction false} EncodeAllDecodeAll(f: Form, s: seq<nat>)
    requires Fits(f, s) && WellFormed(f, s)
    ensures EncodeAll(f, DecodeAll(f, s)) == s
    decreases |s|
  {
    if |s| > 0 {
      var d := Decode(f, s);
      DecodeAllUnfold(f, s);
      var tail := s[d.consumed..];
      EncodeAllDecodeAll(f, tail);
      DecodeSound(f, s);
      Reassemble(f, s, d.value, d.consumed, DecodeAll(f, tail));
    }
  }

  /** A source that starts with the encoding of `c` and goes on with the encodings of `cps` is the
      encoding of `[c] + cps`. */
  lemma Reassemble(f: Form, s: seq<nat>, c: CodePoint, k: nat, cps: seq<CodePoint>)
    requires k <= |s| && IsValidCodePoint(c) && AllValid(cps)
    requires s[..k] == Encode(f, c) && EncodeAll(f, cps) == s[k..]
    ensures AllValid([c] + cps)
    ensures EncodeAll(f, [c] + cps) == s
  {
    EncodeAllCons(f, c, cps);
    assert s == s[..k] + s[k..];
  }

  /** The output of a conversion is well formed in the target form and carries the same code points. */
  lemma ConvertPreservesCodePoints(from: Form, to: Form, s: seq<nat>)
    requires Fits(from, s) && WellFormed(from, s)
    ensures WellFormed(to, Convert(from, to, s))
    ensures DecodeAll(to, Convert(from, to, s)) == DecodeAll(from, s)
  {
    ConvertEncodesDecoded(from, to, s);
    DecodeAllEncodeAll(to, DecodeAll(from, s));
  }

  /** Converting X to Y and back reproduces a well-formed X source exactly, for all nine pairs of forms. */
  lemma ConvertRoundTrip(x: Form, y: Form, s: seq<nat>)
    requires Fits(x, s) && WellFormed(x, s)
    ensures WellFormed(y, Convert(x, y, s))
    ensures Convert(y, x, Convert(x, y, s)) == s
  {
    ConvertPreservesCodePoints(x, y, s);
    var t := Convert(x, y, s);
    ConvertEncodesDecoded(y, x, t);
    EncodeAllDecodeAll(x, s);
  }

  /** Converting a well-formed source to its own form is the identity. */
  lemma ConvertIdentity(f: Form, s: seq<nat>)
    requires Fits(f, s) && WellFormed(f, s)
    ensures Convert(f, f, s) == s
  {
    ConvertEncodesDecoded(f, f, s);
    EncodeAllDecodeAll(f, s);
  }

  // ---------------------------------------------------------------------------
  // The output iterator `convert` returns
  // ---------------------------------------------------------------------------

  /** Storing `units` through an output iterator at position `pos` of a fixed array `buf`. */
  function WriteAt(buf: seq<nat>, pos: nat, units: seq<nat>): (r: seq<nat>)
    requires pos + |units| <= |buf|
    ensures |r| == |buf|
    ensures r[pos..pos + |units|] == units
    ensures r[..pos] == buf[..pos] && r[pos + |units|..] == buf[pos + |units|..]
  {
    buf[..pos] + units + buf[pos + |units|..]
  }

  /**
   `convert` as written, with an output iterator that is a position in an array
   (a pointer): each `encode(c, out)` writes at the same `out`, because the
   advanced iterator `encode` returns is discarded, and `out` itself is returned.
   Only an iterator whose position does not matter, like `back_inserter`, gets
   the intended output this way. Since every write starts at `out`, the array
   only needs room there for the widest single encoding.
   */
  function ConvertAsWritten(from: Form, to: Form, s: seq<nat>, buf: seq<nat>, out: nat): (r: (seq<nat>, nat))
    requires Fits(from, s) && WellFormed(from, s)
    requires forall c :: c in DecodeAll(from, s) ==> out + Width(to, c) <= |buf|
    ensures |r.0| == |buf| && r.1 == out
    decreases |s|
  {
    if |s| == 0 then (buf, out)
    else
      var d := Decode(from, s);
      DecodeAllUnfold(from, s);
      ConvertAsWritten(from, to, s[d.consumed..], WriteAt(buf, out, Encode(to, d.value)), out)
  }

  /** Each code point's encoding is part of the encoding of the whole sequence. */
  lemma {:induction false} EncodeAllCoversEach(f: Form, cps: seq<CodePoint>)
    requires AllValid(cps)
    ensures forall c :: c in cps ==> Width(f, c) <= |EncodeAll(f, cps)|
    decreases |cps|
  {
    if |cps| > 0 {
      EncodeAllCoversEach(f, cps[1..]);
      forall c | c in cps
        ensures Width(f, c) <= |EncodeAll(f, cps)|
      {
        if c != cps[0] {
          assert c in cps[1..];
        }
      }
    }
  }

  /** Room for the whole conversion at `out` is room for each single encoding there. */
  lemma RoomForEach(from: Form, to: Form, s: seq<nat>, buf: seq<nat>, out: nat)
    requires Fits(from, s) && WellFormed(from, s)
    requires out + |Convert(from, to, s)| <= |buf|
    ensures forall c :: c in DecodeAll(from, s) ==> out + Width(to, c) <= |buf|
  {
    ConvertEncodesDecoded(from, to, s);
    EncodeAllCoversEach(to, DecodeAll(from, s));
  }

  /**
   `convert` with the iterator `encode` returns kept (`out = encode(c, out)`):
   the conversion lands at `out` and the iterator past it is returned, leaving
   the rest of the array alone.
   */
  function ConvertInto(from: Form, to: Form, s: seq<nat>, buf: seq<nat>, out: nat): (r: (seq<nat>, nat))
    requires Fits(from, s) && WellFormed(from, s)
    requires out + |Convert(from, to, s)| <= |buf|
    ensures r.1 == out + |Convert(from, to, s)| && |r.0| == |buf|
    ensures r.0[out..r.1] == Convert(from, to, s)
    ensures r.0[..out] == buf[..out] && r.0[r.1..] == buf[r.1..]
    decreases |s|
  {
    if |s| == 0 then (buf, out)
    else
      var d := Decode(from, s);
      FitsSlice(from, s, d.consumed, |s|);
      var units := Encode(to, d.value);
      var buf' := WriteAt(buf, out, units);
      var r := ConvertInto(from, to, s[d.consumed..], buf', out + |units|);
      WriteThenWrite(buf, buf', r.0, out, units, r.1);
      r
  }

  /** A write at `out` followed by writes from `out + |units|` on: the units land first, and
      everything outside the two ranges is the original array. */
  lemma WriteThenWrite(buf: seq<nat>, buf': seq<nat>, final: seq<nat>, out: nat, units: seq<nat>, end: nat)
    requires out + |units| <= end <= |buf| == |buf'| == |final|
    requires buf' == WriteAt(buf, out, units)
    requires final[..out + |units|] == buf'[..out + |units|] && final[end..] == buf'[end..]
    ensures final[out..end] == units + final[out + |units|..end]
    ensures final[..out] == buf[..out] && final[end..] == buf[end..]
  {
    assert final[out..out + |units|] == units by {
      assert final[out..out + |units|] == final[..out + |units|][out..];
      assert buf'[out..out + |units|] == buf'[..out + |units|][out..];
    }
    assert final[out..end] == final[out..out + |units|] + final[out + |units|..end];
    assert final[..out] == buf[..out] by {
      assert final[..out] == final[..out + |units|][..out];
      assert buf'[..out] == buf'[..out + |units|][..out];
    }
    assert buf'[end..] == buf[end..] by {
      assert buf'[end..] == buf'[out + |units|..][end - out - |units|..];
      assert buf[end..] == buf[out + |units|..][end - out - |units|..];
    }
  }

  /** The discrepancy, on the two-letter input "ab" copied UTF-8 to UTF-8: into a two-byte array,
      as written, "b" overwrites "a" and the returned iterator has not moved, while kept, the
      array holds "ab" and the iterator stands past it; into a one-byte array, as written, the
      copy fits without complaint and leaves only "b". */
  lemma ConvertAsWrittenOverwrites()
    ensures WellFormed(Utf8Form, [0x61, 0x62]) && Convert(Utf8Form, Utf8Form, [0x61, 0x62]) == [0x61, 0x62]
    ensures DecodeAll(Utf8Form, [0x61, 0x62]) == [0x61, 0x62]
    ensures ConvertAsWritten(Utf8Form, Utf8Form, [0x61, 0x62], [0, 0], 0) == ([0x62, 0], 0)
    ensures ConvertInto(Utf8Form, Utf8Form, [0x61, 0x62], [0, 0], 0) == ([0x61, 0x62], 2)
    ensures ConvertAsWritten(Utf8Form, Utf8Form, [0x61, 0x62], [0], 0) == ([0x62], 0)
  {
    var s: seq<nat> := [0x61, 0x62];
    assert Decode(Utf8Form, s) == Decoded(0x61, 1);
    assert s[1..] == [0x62];
    assert Decode(Utf8Form, [0x62]) == Decoded(0x62, 1);
    assert [0x62][1..] == [];
    assert WellFormed(Utf8Form, [0x62]);
    assert Convert(Utf8Form, Utf8Form, [0x62]) == [0x62];
    assert DecodeAll(Utf8Form, [0x62]) == [0x62];
    assert WriteAt([0, 0], 0, [0x61]) == [0x61, 0];
    assert WriteAt([0x61, 0], 0, [0x62]) == [0x62, 0];
    assert WriteAt([0x61, 0], 1, [0x62]) == [0x61, 0x62];
    assert WriteAt([0], 0, [0x61]) == [0x61];
    assert WriteAt([0x61], 0, [0x62]) == [0x62];
  }

  /** On any non-empty source the iterator `convert` returns as written is not the one past the output. */
  lemma ConvertAsWrittenLosesPosition(from: Form, to: Form, s: seq<nat>, buf: seq<nat>, out: nat)
    requires Fits(from, s) && WellFormed(from, s) && |s| > 0
    requires out + |Convert(from, to, s)| <= |buf|
    ensures forall c :: c in DecodeAll(from, s) ==> out + Width(to, c) <= |buf|
    ensures ConvertAsWritten(from, to, s, buf, out).1 != ConvertInto(from, to, s, buf, out).1
  {
    RoomForEach(from, to, s, buf, out);
  }
}
