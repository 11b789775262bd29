/**
 The UTF-8 codec (code units one byte wide): byte classification, the validating
 and the unchecked decoder, the minimal-width encoder. Bit packing follows
 section 3 of RFC 3629; the well-formed byte syntax is that of its section 4.

 Bit operations on disjoint fields are written arithmetically: `b & 0x3F` is
 `b % 64`, `(c << 6) | t` with `t < 64` is `c * 64 + t`, `(v >> 6) | 0xC0` is
 `v / 64 + 0xC0` when `v / 64 < 0x40`, and so on; module Bits states that the two spellings agree.
 */
module Utf8 {
  import opened CodePoints

  /** One UTF-8 code unit, read as `unsigned char`. */
  type Byte = x: nat | x < 0x100

  const MaxWidth: nat := 4

  /** Number of continuation bytes a lead byte announces, or -1 for a byte that can never lead. */
  function TrailLength(c: Byte): int
  {
    if c < 128 then 0
    else if c < 194 then -1
    else if c < 224 then 1
    else if c < 240 then 2
    else if c <= 244 then 3
    else -1
  }

  /** Number of bytes in the shortest encoding of `value`. */
  function Width(value: nat): nat
  {
    if value <= 0x7F then 1
    else if value <= 0x7FF then 2
    else if value <= 0xFFFF then 3
    else 4
  }

  /** A continuation byte `10xxxxxx`, i.e. `(c & 0xC0) == 0x80`. */
  predicate IsTrail(c: Byte)
  {
    0x80 <= c < 0xC0
  }

  predicate IsLead(c: Byte)
  {
    !IsTrail(c)
  }

  /** The six payload bits of a continuation byte: `b & 0x3F`. */
  function Low6(b: nat): nat
  {
    b % 0x40
  }

  /** The payload bits of a lead byte announcing `n` continuations: `lead & ((1 << (6 - n)) - 1)`. */
  function LeadBits(lead: Byte, n: nat): nat
    requires 1 <= n <= 3
  {
    if n == 1 then lead % 32 else if n == 2 then lead % 16 else lead % 8
  }

  /** Progress of the continuation loop: the bits assembled so far, or the sentinel it stopped with. */
  datatype Assembly = Assembled(bits: nat, next: nat) | Stopped(error: CodePoint, next: nat)

  /**
   The fall-through `switch` of `decode`: reads `count` continuation bytes from
   position `pos`, folding six payload bits of each into `acc`. `next` is where
   the cursor stands afterwards; a non-continuation byte is consumed before the
   decoder gives up on it.
   */
  function ReadTrails(s: seq<Byte>, pos: nat, count: nat, acc: nat): (r: Assembly)
    requires pos <= |s|
    ensures pos <= r.next <= |s| && r.next <= pos + count
    ensures r.Assembled? ==> r.next == pos + count
    ensures r.Stopped? ==> (r.error == Incomplete && r.next == |s|) || (r.error == Illegal && r.next > pos)
    ensures r.Stopped? && r.error == Illegal ==>
              !IsTrail(s[r.next - 1]) && forall j :: pos <= j < r.next - 1 ==> IsTrail(s[j])
    decreases count
  {
    if count == 0 then Assembled(acc, pos)
    else if pos == |s| then Stopped(Incomplete, pos)
    else if !IsTrail(s[pos]) then Stopped(Illegal, pos + 1)
    else ReadTrails(s, pos + 1, count - 1, acc * 0x40 + Low6(s[pos]))
  }

  /**
   Validating decode of the code point at the front of `s`. The result is a valid
   code point, `Illegal` or `Incomplete`; `consumed` is how far the cursor moved.
   */
  function Decode(s: seq<Byte>): (r: Decoded)
    ensures |s| == 0 ==> r == Decoded(Incomplete, 0)
    ensures |s| > 0 ==> 1 <= r.consumed <= MaxWidth && r.consumed <= |s|
    ensures IsDecodeOutcome(r.value)
    ensures r.value == Incomplete ==> r.consumed == |s|
    ensures IsValidCodePoint(r.value) ==> r.consumed == Width(r.value)
  {
    if |s| == 0 then Decoded(Incomplete, 0)
    else
      var lead := s[0];
      var trailSize := TrailLength(lead);
      if trailSize < 0 then Decoded(Illegal, 1)
      else if trailSize == 0 then Decoded(lead, 1)
      else
        match ReadTrails(s, 1, trailSize, LeadBits(lead, trailSize))
        case Stopped(e, k) => Decoded(e, k)
        case Assembled(c, k) =>
          if !IsValidCodePoint(c) then Decoded(Illegal, k)
          else if Width(c) != trailSize + 1 then Decoded(Illegal, k)
          else Decoded(c, k)
  }

  /** The sequence length `decode_valid` assumes from a lead byte, with no validation. */
  function ValidTrailLength(lead: Byte): nat
  {
    if lead < 192 then 0
    else if lead < 224 then 1
    else if lead < 240 then 2
    else 3
  }

  /** The payload of a lead byte and `n` continuation bytes, assembled without any check. */
  function Payload(s: seq<Byte>, n: nat): (r: nat)
    requires n <= 3 && |s| > n
    ensures r < 0x20_0000
  {
    if n == 0 then s[0]
    else if n == 1 then LeadBits(s[0], 1) * 0x40 + Low6(s[1])
    else if n == 2 then LeadBits(s[0], 2) * 0x1000 + Low6(s[1]) * 0x40 + Low6(s[2])
    else LeadBits(s[0], 3) * 0x4_0000 + Low6(s[1]) * 0x1000 + Low6(s[2]) * 0x40 + Low6(s[3])
  }

  /** Unchecked decode for input known to be well formed; it reads as many bytes as the lead claims. */
  function DecodeValid(s: seq<Byte>): (r: Decoded)
    requires |s| > 0 && |s| > ValidTrailLength(s[0])
    ensures r.value < 0x20_0000
  {
    var n := ValidTrailLength(s[0]);
    Decoded(Payload(s, n), n + 1)
  }

  /** The shortest byte sequence for a valid code point. */
  function Encode(value: CodePoint): (r: seq<Byte>)
    requires IsValidCodePoint(value)
    ensures |r| == Width(value)
    ensures TrailLength(r[0]) == |r| - 1
    ensures forall i :: 1 <= i < |r| ==> IsTrail(r[i])
  {
    if value <= 0x7F then
      [value]
    else if value <= 0x7FF then
      [value / 0x40 + 0xC0, value % 0x40 + 0x80]
    else if value <= 0xFFFF then
      [value / 0x1000 + 0xE0, value / 0x40 % 0x40 + 0x80, value % 0x40 + 0x80]
    else
      [value / 0x4_0000 + 0xF0, value / 0x1000 % 0x40 + 0x80, value / 0x40 % 0x40 + 0x80, value % 0x40 + 0x80]
  }

  // ---------------------------------------------------------------------------
  // The continuation loop
  // ---------------------------------------------------------------------------

  /** A non-continuation byte at `k` stops the loop with `Illegal`, that byte consumed. */
  lemma {:induction false} ReadTrailsStopsAtBadByte(s: seq<Byte>, pos: nat, count: nat, acc: nat, k: nat)
    requires pos <= k < pos + count && k < |s|
    requires forall j :: pos <= j < k ==> IsTrail(s[j])
    requires !IsTrail(s[k])
    ensures ReadTrails(s, pos, count, acc) == Stopped(Illegal, k + 1)
    decreases count
  {
    if pos < k {
      ReadTrailsStopsAtBadByte(s, pos + 1, count - 1, acc * 0x40 + Low6(s[pos]), k);
    }
  }

  /** Input that ends inside the continuation bytes stops the loop with `Incomplete`, all of it consumed. */
  lemma {:induction false} ReadTrailsRunsOut(s: seq<Byte>, pos: nat, count: nat, acc: nat)
    requires pos <= |s| < pos + count
    requires forall j :: pos <= j < |s| ==> IsTrail(s[j])
    ensures ReadTrails(s, pos, count, acc) == Stopped(Incomplete, |s|)
    decreases count
  {
    if pos < |s| {
      ReadTrailsRunsOut(s, pos + 1, count - 1, acc * 0x40 + Low6(s[pos]));
    }
  }

  /** The loop only assembles when every announced continuation byte is present and well formed. */
  lemma {:induction false} ReadTrailsAssembledMeansTrails(s: seq<Byte>, pos: nat, count: nat, acc: nat)
    requires pos <= |s|
    requires ReadTrails(s, pos, count, acc).Assembled?
    ensures pos + count <= |s|
    ensures forall j :: pos <= j < pos + count ==> IsTrail(s[j])
    decreases count
  {
    if count > 0 {
      ReadTrailsAssembledMeansTrails(s, pos + 1, count - 1, acc * 0x40 + Low6(s[pos]));
    }
  }

  /** With all continuations in place the loop computes the closed-form `Payload`. */
  lemma ReadTrailsAssembles(s: seq<Byte>, n: nat)
    requires 1 <= n <= 3 && |s| > n
    requires forall j :: 1 <= j <= n ==> IsTrail(s[j])
    ensures ReadTrails(s, 1, n, LeadBits(s[0], n)) == Assembled(Payload(s, n), n + 1)
  {
    var a := LeadBits(s[0], n);
    var b := a * 0x40 + Low6(s[1]);
    assert ReadTrails(s, 1, n, a) == ReadTrails(s, 2, n - 1, b);
    if n >= 2 {
      var c := b * 0x40 + Low6(s[2]);
      assert ReadTrails(s, 2, n - 1, b) == ReadTrails(s, 3, n - 2, c);
      if n == 3 {
        assert ReadTrails(s, 3, 1, c) == ReadTrails(s, 4, 0, c * 0x40 + Low6(s[3]));
      }
    }
  }

  // ---------------------------------------------------------------------------
  // Arithmetic of the bit fields
  // ---------------------------------------------------------------------------

  lemma DivMod64(q: nat, r: nat)
    requires r < 0x40
    ensures (q * 0x40 + r) / 0x40 == q && (q * 0x40 + r) % 0x40 == r
  {
  }

  /** Splitting `a:b:c` (6-bit `b` and `c`) back into its fields. */
  lemma Split3(a: nat, b: nat, c: nat)
    requires b < 0x40 && c < 0x40
    ensures var v := a * 0x1000 + b * 0x40 + c;
            v % 0x40 == c && v / 0x40 % 0x40 == b && v / 0x1000 == a
  {
    var v := a * 0x1000 + b * 0x40 + c;
    DivMod64(a * 0x40 + b, c);
    DivMod64(a, b);
    assert v / 0x1000 == v / 0x40 / 0x40;
  }

  /** Splitting `a:b:c:d` (6-bit `b`, `c`, `d`) back into its fields. */
  lemma Split4(a: nat, b: nat, c: nat, d: nat)
    requires b < 0x40 && c < 0x40 && d < 0x40
    ensures var v := a * 0x4_0000 + b * 0x1000 + c * 0x40 + d;
            v % 0x40 == d && v / 0x40 % 0x40 == c && v / 0x1000 % 0x40 == b && v / 0x4_0000 == a
  {
    var v := a * 0x4_0000 + b * 0x1000 + c * 0x40 + d;
    Split3(a * 0x40 + b, c, d);
    DivMod64(a, b);
    assert v / 0x4_0000 == v / 0x1000 / 0x40;
  }

  /** Any value is its fields put back together. */
  lemma Fields(v: nat)
    ensures v == (v / 0x40) * 0x40 + v % 0x40
    ensures v == (v / 0x1000) * 0x1000 + (v / 0x40 % 0x40) * 0x40 + v % 0x40
    ensures v == (v / 0x4_0000) * 0x4_0000 + (v / 0x1000 % 0x40) * 0x1000 + (v / 0x40 % 0x40) * 0x40 + v % 0x40
  {
    assert v / 0x40 == (v / 0x1000) * 0x40 + v / 0x40 % 0x40 by {
      assert v / 0x40 / 0x40 == v / 0x1000;
    }
    assert v / 0x1000 == (v / 0x4_0000) * 0x40 + v / 0x1000 % 0x40 by {
      assert v / 0x1000 / 0x40 == v / 0x4_0000;
    }
  }

  /** The unchecked assembly of an encoding gives back the code point. */
  lemma PayloadOfEncoding(c: CodePoint, rest: seq<Byte>)
    requires IsValidCodePoint(c)
    ensures Payload(Encode(c) + rest, Width(c) - 1) == c
  {
    var e := Encode(c);
    var s := e + rest;
    assert forall j :: 0 <= j < |e| ==> s[j] == e[j];
    if Width(c) == 2 {
      PayloadOfEncoding2(c, s);
    } else if Width(c) == 3 {
      PayloadOfEncoding3(c, s);
    } else if Width(c) == 4 {
      PayloadOfEncoding4(c, s);
    }
  }

  lemma PayloadOfEncoding2(c: nat, s: seq<Byte>)
    requires 0x80 <= c <= 0x7FF && |s| >= 2
    requires s[0] == c / 0x40 + 0xC0 && s[1] == c % 0x40 + 0x80
    ensures Payload(s, 1) == c
  {
    Fields(c);
    assert LeadBits(s[0], 1) == c / 0x40;
    assert Low6(s[1]) == c % 0x40;
  }

  lemma PayloadOfEncoding3(c: nat, s: seq<Byte>)
    requires 0x800 <= c <= 0xFFFF && |s| >= 3
    requires s[0] == c / 0x1000 + 0xE0 && s[1] == c / 0x40 % 0x40 + 0x80 && s[2] == c % 0x40 + 0x80
    ensures Payload(s, 2) == c
  {
    Fields(c);
    assert LeadBits(s[0], 2) == c / 0x1000;
    assert Low6(s[1]) == c / 0x40 % 0x40;
    assert Low6(s[2]) == c % 0x40;
  }

  lemma PayloadOfEncoding4(c: nat, s: seq<Byte>)
    requires 0x1_0000 <= c <= 0x10_FFFF && |s| >= 4
    requires s[0] == c / 0x4_0000 + 0xF0 && s[1] == c / 0x1000 % 0x40 + 0x80
    requires s[2] == c / 0x40 % 0x40 + 0x80 && s[3] == c % 0x40 + 0x80
    ensures Payload(s, 3) == c
  {
    Fields(c);
    assert LeadBits(s[0], 3) == c / 0x4_0000;
    assert Low6(s[1]) == c / 0x1000 % 0x40;
    assert Low6(s[2]) == c / 0x40 % 0x40;
    assert Low6(s[3]) == c % 0x40;
  }

  /** A well-formed sequence whose payload has this very width is that payload's encoding. */
  lemma EncodingOfPayload(s: seq<Byte>)
    requires |s| > 0 && 0 <= TrailLength(s[0]) < |s|
    requires forall j :: 1 <= j <= TrailLength(s[0]) ==> IsTrail(s[j])
    requires IsValidCodePoint(Payload(s, TrailLength(s[0])))
    requires Width(Payload(s, TrailLength(s[0]))) == TrailLength(s[0]) + 1
    ensures Encode(Payload(s, TrailLength(s[0]))) == s[..TrailLength(s[0]) + 1]
  {
    var n := TrailLength(s[0]);
    if n == 1 {
      EncodingOfPayload2(s);
    } else if n == 2 {
      EncodingOfPayload3(s);
    } else if n == 3 {
      EncodingOfPayload4(s);
    }
  }

  lemma EncodingOfPayload2(s: seq<Byte>)
    requires |s| > 1 && TrailLength(s[0]) == 1 && IsTrail(s[1])
    requires IsValidCodePoint(Payload(s, 1)) && Width(Payload(s, 1)) == 2
    ensures Encode(Payload(s, 1)) == s[..2]
  {
    assert LeadBits(s[0], 1) == s[0] - 0xC0;
    assert Low6(s[1]) == s[1] - 0x80;
    DivMod64(s[0] - 0xC0, Low6(s[1]));
  }

  lemma EncodingOfPayload3(s: seq<Byte>)
    requires |s| > 2 && TrailLength(s[0]) == 2 && IsTrail(s[1]) && IsTrail(s[2])
    requires IsValidCodePoint(Payload(s, 2)) && Width(Payload(s, 2)) == 3
    ensures Encode(Payload(s, 2)) == s[..3]
  {
    assert LeadBits(s[0], 2) == s[0] - 0xE0;
    assert Low6(s[1]) == s[1] - 0x80;
    assert Low6(s[2]) == s[2] - 0x80;
    Split3(s[0] - 0xE0, Low6(s[1]), Low6(s[2]));
  }

  lemma EncodingOfPayload4(s: seq<Byte>)
    requires |s| > 3 && TrailLength(s[0]) == 3 && IsTrail(s[1]) && IsTrail(s[2]) && IsTrail(s[3])
    requires IsValidCodePoint(Payload(s, 3)) && Width(Payload(s, 3)) == 4
    ensures Encode(Payload(s, 3)) == s[..4]
  {
    assert LeadBits(s[0], 3) == s[0] - 0xF0;
    assert Low6(s[1]) == s[1] - 0x80;
    assert Low6(s[2]) == s[2] - 0x80;
    assert Low6(s[3]) == s[3] - 0x80;
    Split4(s[0] - 0xF0, Low6(s[1]), Low6(s[2]), Low6(s[3]));
  }

  // ---------------------------------------------------------------------------
  // Properties
  // ---------------------------------------------------------------------------

  /** A byte can lead a sequence exactly when it is the first byte of some code point's encoding,
      and it then announces that encoding's length. */
  lemma LeadBytesAreEncodingLeads(b: Byte)
    ensures TrailLength(b) >= 0 <==> exists c: CodePoint :: IsValidCodePoint(c) && Encode(c)[0] == b
    ensures forall c: CodePoint :: IsValidCodePoint(c) && Encode(c)[0] == b ==> Width(c) == TrailLength(b) + 1
  {
    if TrailLength(b) >= 0 {
      var c: CodePoint :=
        if b < 0x80 then b
        else if b < 0xE0 then (b - 0xC0) * 0x40
        else if b == 0xE0 then 0x800
        else if b < 0xF0 then (b - 0xE0) * 0x1000
        else if b == 0xF0 then 0x1_0000
        else (b - 0xF0) * 0x4_0000;
      assert IsValidCodePoint(c) && Encode(c)[0] == b;
    }
  }

  /** Decoding the encoding of `c`, whatever follows it, yields `c` and consumes exactly `Width(c)`
      bytes; the unchecked decoder agrees. */
  lemma RoundTrip(c: CodePoint, rest: seq<Byte>)
    requires IsValidCodePoint(c)
    ensures Decode(Encode(c) + rest) == Decoded(c, Width(c))
    ensures DecodeValid(Encode(c) + rest) == Decoded(c, Width(c))
  {
    var e := Encode(c);
    var s := e + rest;
    var n := Width(c) - 1;
    assert forall j :: 0 <= j < |e| ==> s[j] == e[j];
    PayloadOfEncoding(c, rest);
    if n >= 1 {
      ReadTrailsAssembles(s, n);
    }
  }

  /** A decoded code point was written in its one shortest encoding: overlong forms, and anything
      else that is not `Encode(value)`, never decode to a value. */
  lemma DecodeSound(s: seq<Byte>)
    requires IsValidCodePoint(Decode(s).value)
    ensures s[..Decode(s).consumed] == Encode(Decode(s).value)
  {
    var n := TrailLength(s[0]);
    if n >= 1 {
      ReadTrailsAssembledMeansTrails(s, 1, n, LeadBits(s[0], n));
      ReadTrailsAssembles(s, n);
      EncodingOfPayload(s);
    }
  }

  /** Wherever the validating decoder accepts, the unchecked decoder returns the same thing. */
  lemma DecodeValidAgrees(s: seq<Byte>)
    requires IsValidCodePoint(Decode(s).value)
    ensures |s| > ValidTrailLength(s[0])
    ensures DecodeValid(s) == Decode(s)
  {
    var r := Decode(s);
    DecodeSound(s);
    assert s == Encode(r.value) + s[r.consumed..];
    RoundTrip(r.value, s[r.consumed..]);
  }

  /** A byte that cannot lead is rejected on its own. */
  lemma InvalidLeadIsIllegal(s: seq<Byte>)
    requires |s| > 0 && TrailLength(s[0]) < 0
    ensures Decode(s) == Decoded(Illegal, 1)
  {
  }

  /** The first continuation position `k` holding a byte that is not `10xxxxxx` ends the sequence
      as `Illegal`, that byte included in what was consumed. */
  lemma BadContinuationIsIllegal(s: seq<Byte>, k: nat)
    requires 1 <= k < |s| && k <= TrailLength(s[0])
    requires forall j :: 1 <= j < k ==> IsTrail(s[j])
    requires !IsTrail(s[k])
    ensures Decode(s) == Decoded(Illegal, k + 1)
  {
    ReadTrailsStopsAtBadByte(s, 1, TrailLength(s[0]), LeadBits(s[0], TrailLength(s[0])), k);
  }

  /** A valid lead followed only by continuations, but fewer than it announces, is `Incomplete`,
      never `Illegal`; the cursor ends at the end of the input. */
  lemma TruncatedIsIncomplete(s: seq<Byte>)
    requires |s| > 0 && 1 <= TrailLength(s[0]) && |s| <= TrailLength(s[0])
    requires forall j :: 1 <= j < |s| ==> IsTrail(s[j])
    ensures Decode(s) == Decoded(Incomplete, |s|)
  {
    ReadTrailsRunsOut(s, 1, TrailLength(s[0]), LeadBits(s[0], TrailLength(s[0])));
  }

  /** Every non-empty proper prefix of a multi-byte encoding decodes to `Incomplete`. */
  lemma EncodingPrefixIsIncomplete(c: CodePoint, k: nat)
    requires IsValidCodePoint(c) && 1 <= k < Width(c)
    ensures Decode(Encode(c)[..k]) == Decoded(Incomplete, k)
  {
    var e := Encode(c);
    var p := e[..k];
    assert forall j :: 0 <= j < k ==> p[j] == e[j];
    TruncatedIsIncomplete(p);
  }

  /** A complete, syntactically well-formed sequence decodes to its payload when that is a code
      point whose shortest form has this length, and to `Illegal` otherwise (a surrogate, a value
      above 0x10FFFF, or an overlong form); either way all `n + 1` bytes are consumed. */
  lemma CompleteSequence(s: seq<Byte>)
    requires |s| > 0 && 0 <= TrailLength(s[0]) < |s|
    requires forall j :: 1 <= j <= TrailLength(s[0]) ==> IsTrail(s[j])
    ensures var n := TrailLength(s[0]);
            var v := Payload(s, n);
            Decode(s) == if IsValidCodePoint(v) && Width(v) == n + 1 then Decoded(v, n + 1)
                         else Decoded(Illegal, n + 1)
  {
    var n := TrailLength(s[0]);
    if n >= 1 {
      ReadTrailsAssembles(s, n);
    }
  }

  /** `is_lead`/`is_trail` classify the bytes of an encoding: its first byte is a lead and every
      later byte is a trail, never a lead. */
  lemma EncodingUnits(c: CodePoint)
    requires IsValidCodePoint(c)
    ensures IsLead(Encode(c)[0]) && !IsTrail(Encode(c)[0])
    ensures forall i :: 1 <= i < |Encode(c)| ==> IsTrail(Encode(c)[i]) && !IsLead(Encode(c)[i])
  {
  }

  /** A decode that starts on a trail byte starts in the middle of a sequence: `illegal`, one
      byte consumed. */
  lemma DecodeAtTrail(s: seq<Byte>)
    requires |s| > 0 && !IsLead(s[0])
    ensures Decode(s) == Decoded(Illegal, 1)
  {
  }
}
