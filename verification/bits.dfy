/**
 The C++ codecs pack and unpack code points with masks, shifts and `|`; the
 model writes the same steps as `%`, `/`, `*` and `+` on disjoint fields. The
 lemmas here state, for the expressions the codecs use, that the two spellings
 agree: byte masks and the UTF-8 lead bytes against the model's functions
 directly, the remaining 32-bit shift-and-or forms as identities between
 machine words.
 */
module Bits {
  import CodePoints
  import Utf8

  /** `is_trail`: `(c & 0xC0) == 0x80` is the range test the model uses. */
  lemma TrailTest(c: bv8)
    ensures Utf8.IsTrail(c as nat) <==> c & 0xC0 == 0x80
  {
  }

  /** `tmp & 0x3F`: the payload bits of a continuation byte. */
  lemma PayloadMask(c: bv8)
    ensures (c & 0x3F) as nat == Utf8.Low6(c as nat)
  {
  }

  /** `lead & ((1 << (6 - trail_size)) - 1)`: the payload bits of a lead byte. */
  lemma LeadMask(lead: bv8, n: nat)
    requires 1 <= n <= 3
    ensures (lead & (((1 as bv8) << (6 - n)) - 1)) as nat == Utf8.LeadBits(lead as nat, n)
  {
    if n == 1 {
      assert ((1 as bv8) << 5) - 1 == 0x1F;
      Mask5(lead);
    } else if n == 2 {
      assert ((1 as bv8) << 4) - 1 == 0x0F;
      Mask4(lead);
    } else {
      assert ((1 as bv8) << 3) - 1 == 0x07;
      Mask3(lead);
    }
  }

  lemma Mask5(b: bv8)
    ensures (b & 0x1F) as nat == b as nat % 0x20
  {
  }

  lemma Mask4(b: bv8)
    ensures (b & 0x0F) as nat == b as nat % 0x10
  {
  }

  lemma Mask3(b: bv8)
    ensures (b & 0x07) as nat == b as nat % 0x8
  {
  }

  /** `c = (c << 6) | (tmp & 0x3F)`: appending six bits is multiplying by 64 and adding them. */
  lemma AppendSixBits(c: bv32, t: bv32)
    requires c < 0x400_0000 && t < 0x40
    ensures (c << 6) | t == c * 0x40 + t
  {
  }

  /** The UTF-8 encoder's fields: shifts are divisions, `& 0x3F` is the remainder by 64, and
      or-ing the marker bits adds them. */
  lemma Utf8Fields(v: bv32)
    requires v <= 0x10_FFFF
    ensures v >> 6 == v / 0x40 && v >> 12 == v / 0x1000 && v >> 18 == v / 0x4_0000
    ensures v & 0x3F == v % 0x40 && (v >> 6) & 0x3F == v / 0x40 % 0x40 && (v >> 12) & 0x3F == v / 0x1000 % 0x40
    ensures (v & 0x3F) | 0x80 == v % 0x40 + 0x80
    ensures v <= 0x7FF ==> (v >> 6) | 0xC0 == v / 0x40 + 0xC0
    ensures v <= 0xFFFF ==> (v >> 12) | 0xE0 == v / 0x1000 + 0xE0
    ensures (v >> 18) | 0xF0 == v / 0x4_0000 + 0xF0
  {
  }

  /** The first byte of the model's UTF-8 encoding of `n`. */
  function LeadByte(n: nat): nat
    requires CodePoints.IsValidCodePoint(n)
  {
    Utf8.Encode(n)[0]
  }

  /** The UTF-8 encoder's lead bytes, `(value >> 6) | 0xC0` and its three- and four-byte
      counterparts, are as integers the first byte of the model's encoding. */
  lemma Utf8LeadBytes(v: bv32)
    requires CodePoints.IsValidCodePoint(v as nat)
    ensures 0x80 <= v <= 0x7FF ==> ((v >> 6) | 0xC0) as nat == LeadByte(v as nat)
    ensures 0x800 <= v <= 0xFFFF ==> ((v >> 12) | 0xE0) as nat == LeadByte(v as nat)
    ensures 0x1_0000 <= v ==> ((v >> 18) | 0xF0) as nat == LeadByte(v as nat)
  {
    EncodedLeads(v as nat);
    if 0x80 <= v <= 0x7FF {
      Lead2(v);
    } else if 0x800 <= v <= 0xFFFF {
      Lead3(v);
    } else if 0x1_0000 <= v {
      Lead4(v);
    }
  }

  lemma EncodedLeads(n: nat)
    requires CodePoints.IsValidCodePoint(n)
    ensures 0x80 <= n <= 0x7FF ==> LeadByte(n) == n / 0x40 + 0xC0
    ensures 0x800 <= n <= 0xFFFF ==> LeadByte(n) == n / 0x1000 + 0xE0
    ensures 0x1_0000 <= n ==> LeadByte(n) == n / 0x4_0000 + 0xF0
  {
  }

  lemma Lead2(v: bv32)
    requires v <= 0x7FF
    ensures ((v >> 6) | 0xC0) as nat == v as nat / 0x40 + 0xC0
  {
  }

  lemma Lead3(v: bv32)
    requires v <= 0xFFFF
    ensures ((v >> 12) | 0xE0) as nat == v as nat / 0x1000 + 0xE0
  {
  }

  lemma Lead4(v: bv32)
    requires v <= 0x10_FFFF
    ensures ((v >> 18) | 0xF0) as nat == v as nat / 0x4_0000 + 0xF0
  {
  }

  /** The UTF-16 encoder's halves of `u - 0x10000`. */
  lemma SurrogateFields(u: bv32)
    requires u < 0x10_0000
    ensures 0xD800 | (u >> 10) == 0xD800 + u / 0x400
    ensures 0xDC00 | (u & 0x3FF) == 0xDC00 + u % 0x400
  {
  }

  /** `combine_surrogate`: `((w1 & 0x3FF) << 10) | (w2 & 0x3FF)` is the model's sum of fields. */
  lemma CombineFields(w1: bv32, w2: bv32)
    requires w1 < 0x1_0000 && w2 < 0x1_0000
    ensures (((w1 & 0x3FF) << 10) | (w2 & 0x3FF)) + 0x1_0000 == (w1 % 0x400) * 0x400 + w2 % 0x400 + 0x1_0000
  {
  }
}
