/**
 `encoded_chars`: the small by-value buffer one `encode` call fills. The C++
 type is an array of `4 / sizeof(CharType)` units plus a logical size. The
 slots past the size are zero, and the only read of one is the dereference of
 a done iterator, which the model excludes; the model keeps only the units in
 use.
 */
module Buffer {
  import opened CodePoints
  import opened Codec

  datatype EncodedChars = EncodedChars(chars: seq<nat>)
  {
    function Size(): nat
    {
      |chars|
    }

    function At(i: nat): nat
      requires i < Size()
    {
      chars[i]
    }
  }

  /** A default-constructed buffer: size 0. */
  const Empty: EncodedChars := EncodedChars([])

  /** The array length of the buffer for a form: four bytes' worth of units. */
  function Capacity(f: Form): nat
  {
    4 / UnitBytes(f)
  }

  /** A buffer a form's encode can produce: no more units than the array holds, each a unit of the form. */
  predicate Holds(f: Form, b: EncodedChars)
  {
    b.Size() <= Capacity(f) && Fits(f, b.chars)
  }

  /** The buffer-returning `encode`: the units of `c` in form `f`, which always fit the array. */
  function EncodeChars(f: Form, c: CodePoint): (r: EncodedChars)
    requires IsValidCodePoint(c)
    ensures Holds(f, r) && 1 <= r.Size()
    ensures Decode(f, r.chars) == Decoded(c, r.Size())
  {
    MaxWidthFillsFourBytes(f);
    RoundTrip(f, c, []);
    assert Encode(f, c) + [] == Encode(f, c);
    EncodedChars(Encode(f, c))
  }

  /** `operator==`: `std::equal` over the first `size_` units of each side, so buffers of
      different sizes differ and equal sizes compare unit by unit. */
  predicate Equal(a: EncodedChars, b: EncodedChars)
  {
    a.Size() == b.Size() && forall i :: 0 <= i < a.Size() ==> a.At(i) == b.At(i)
  }

  /** The buffer comparison is exactly equality of the units in use. */
  lemma EqualIffSameUnits(a: EncodedChars, b: EncodedChars)
    ensures Equal(a, b) <==> a == b
  {
    if Equal(a, b) {
      forall i | 0 <= i < |a.chars|
        ensures a.chars[i] == b.chars[i]
      {
        assert a.At(i) == b.At(i);
      }
      assert a.chars == b.chars;
    }
  }
}
