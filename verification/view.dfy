/**
 `unicode_view` and its iterator: a lazy transcoder that decodes one code point
 from the source, keeps its encoding in the target form in an `encoded_chars`
 buffer, hands the buffer's units out one by one, and refills when it runs dry.

 The source is a finite sequence and iterator positions are indices into it, so
 this is the multi-pass (forward iterator) case. As for `convert`, the source is
 taken to be well formed, since `encode` is only defined for code points.
 */
module View {
  import opened CodePoints
  import opened Codec
  import opened Buffer
  import opened Transcode

  /** A view over `source`, read in form `from` and presented in form `to`. */
  datatype UnicodeView = UnicodeView(from: Form, to: Form, source: seq<nat>)
  {
    predicate Valid()
    {
      Fits(from, source) && WellFormed(from, source)
    }
  }

  /** `std::uint8_t`. */
  type Uint8 = x: nat | x < 0x100

  /**
   The iterator state: the source cursor `first`, the end bound `last`, the
   encoding of the code point last decoded, and the index of the next unit of
   it to hand out (a `uint8_t` in the source).
   */
  datatype Iterator = Iterator(first: nat, last: nat, nextChars: EncodedChars, idx: Uint8)
  {
    /** The end state: source used up and buffer handed out. */
    predicate Done()
    {
      first == last && idx == nextChars.Size()
    }
  }

  /** The iterator's cursor stands at the start of a well-formed rest of the source. */
  predicate Positioned(v: UnicodeView, it: Iterator)
  {
    && it.first <= it.last <= |v.source|
    && Fits(v.from, v.source[it.first..it.last])
    && WellFormed(v.from, v.source[it.first..it.last])
  }

  /** What every iterator reachable from `begin()` satisfies: it is done, or its index is
      inside its buffer. */
  predicate Inv(v: UnicodeView, it: Iterator)
  {
    && Positioned(v, it)
    && Holds(v.to, it.nextChars)
    && (it.Done() || it.idx < it.nextChars.Size())
  }

  /** Decoding at `first` meets a code point, leaves a well-formed rest, and starts the conversion. */
  lemma DecodeStep(v: UnicodeView, first: nat, last: nat)
    requires first < last <= |v.source|
    requires Fits(v.from, v.source[first..last]) && WellFormed(v.from, v.source[first..last])
    ensures IsValidCodePoint(Decode(v.from, v.source[first..last]).value)
    ensures first + Decode(v.from, v.source[first..last]).consumed <= last
    ensures Fits(v.from, v.source[first + Decode(v.from, v.source[first..last]).consumed..last])
    ensures WellFormed(v.from, v.source[first + Decode(v.from, v.source[first..last]).consumed..last])
    ensures Convert(v.from, v.to, v.source[first..last])
            == Encode(v.to, Decode(v.from, v.source[first..last]).value)
               + Convert(v.from, v.to, v.source[first + Decode(v.from, v.source[first..last]).consumed..last])
  {
    var rest := v.source[first..last];
    var d := Decode(v.from, rest);
    ConvertUnfold(v.from, v.to, rest);
    SliceOfSlice(v.source, first, last, d.consumed);
  }

  lemma SliceOfSlice(s: seq<nat>, i: nat, j: nat, k: nat)
    requires i <= j <= |s| && k <= j - i
    ensures s[i..j][k..] == s[i + k..j]
  {
  }

  /** Decode the next code point at `first` and encode it into a fresh buffer, index 0. */
  function Refill(v: UnicodeView, first: nat, last: nat): (it: Iterator)
    requires first < last <= |v.source|
    requires Fits(v.from, v.source[first..last]) && WellFormed(v.from, v.source[first..last])
    ensures Inv(v, it) && !it.Done()
    ensures it.first > first && it.last == last && it.idx == 0
    ensures it.nextChars.chars + Convert(v.from, v.to, v.source[it.first..last])
            == Convert(v.from, v.to, v.source[first..last])
  {
    var d := Decode(v.from, v.source[first..last]);
    DecodeStep(v, first, last);
    Iterator(first + d.consumed, last, EncodeChars(v.to, d.value), 0)
  }

  /** The constructor `iterator(first, last)`: pre-decodes unless the range is empty. */
  function Construct(v: UnicodeView, first: nat, last: nat): (it: Iterator)
    requires first <= last <= |v.source|
    requires Fits(v.from, v.source[first..last]) && WellFormed(v.from, v.source[first..last])
    ensures Inv(v, it)
    ensures it.Done() <==> first == last
  {
    if first != last then Refill(v, first, last)
    else Iterator(first, last, Empty, 0)
  }

  function Begin(v: UnicodeView): (it: Iterator)
    requires v.Valid()
    ensures Inv(v, it)
    ensures it.Done() <==> |v.source| == 0
  {
    assert v.source[0..|v.source|] == v.source;
    Construct(v, 0, |v.source|)
  }

  function End(v: UnicodeView): (it: Iterator)
    ensures Inv(v, it) && it.Done()
  {
    Construct(v, |v.source|, |v.source|)
  }

  /** `operator*`: the unit at the index. Only a not-done iterator may be dereferenced. */
  function Deref(v: UnicodeView, it: Iterator): nat
    requires it.idx < it.nextChars.Size()
  {
    it.nextChars.At(it.idx)
  }

  /** `operator++`: advance the 8-bit index; when it reaches the buffer size and source is left,
      decode and encode the next code point. */
  function Next(v: UnicodeView, it: Iterator): (r: Iterator)
    requires Positioned(v, it)
    ensures Positioned(v, r)
  {
    var idx := (it.idx + 1) % 0x100;
    if idx == it.nextChars.Size() && it.first != it.last then Refill(v, it.first, it.last)
    else it.(idx := idx)
  }

  /** `operator==`: both done, or the same cursor, bound, index and buffer contents. */
  predicate Equal(a: Iterator, b: Iterator)
  {
    (a.Done() && b.Done()) ||
    (a.first == b.first && a.last == b.last && a.idx == b.idx && Buffer.Equal(a.nextChars, b.nextChars))
  }

  /** The units an iterator has yet to produce: the rest of its buffer, then the conversion of the
      source left. */
  ghost function Remaining(v: UnicodeView, it: Iterator): seq<nat>
    requires Inv(v, it)
  {
    it.nextChars.chars[it.idx..] + Convert(v.from, v.to, v.source[it.first..it.last])
  }

  // ---------------------------------------------------------------------------
  // Properties
  // ---------------------------------------------------------------------------

  /** `begin() == end()` exactly when the source is empty. */
  lemma BeginEqualsEndIffEmpty(v: UnicodeView)
    requires v.Valid()
    ensures Equal(Begin(v), End(v)) <==> |v.source| == 0
  {
  }

  /** `++` keeps an iterator in the reachable states: not done means the index is in the buffer. */
  lemma NextPreservesInv(v: UnicodeView, it: Iterator)
    requires Inv(v, it) && !it.Done()
    ensures Inv(v, Next(v, it))
  {
  }

  /** Any two done iterators compare equal, and comparing with `end()` is the done test. */
  lemma DoneIteratorsAreEqual(v: UnicodeView, a: Iterator, b: Iterator)
    ensures a.Done() && b.Done() ==> Equal(a, b)
    ensures Equal(a, End(v)) <==> a.Done()
  {
    if Equal(a, End(v)) && !a.Done() {
      EqualIffSameUnits(a.nextChars, End(v).nextChars);
    }
  }

  /** An iterator that compares equal to a done one is done itself. */
  lemma EqualToDoneIsDone(a: Iterator, b: Iterator)
    requires Equal(a, b) && b.Done()
    ensures a.Done()
  {
    EqualIffSameUnits(a.nextChars, b.nextChars);
  }

  /** Iterator equality is an equivalence relation. */
  lemma EqualIsEquivalence(a: Iterator, b: Iterator, c: Iterator)
    ensures Equal(a, a)
    ensures Equal(a, b) ==> Equal(b, a)
    ensures Equal(a, b) && Equal(b, c) ==> Equal(a, c)
  {
    EqualIffSameUnits(a.nextChars, a.nextChars);
    EqualIffSameUnits(a.nextChars, b.nextChars);
    EqualIffSameUnits(b.nextChars, a.nextChars);
    EqualIffSameUnits(b.nextChars, c.nextChars);
    EqualIffSameUnits(a.nextChars, c.nextChars);
  }

  /** `begin()` has the whole conversion ahead of it. */
  lemma BeginRemaining(v: UnicodeView)
    requires v.Valid()
    ensures Remaining(v, Begin(v)) == Convert(v.from, v.to, v.source)
  {
    var s := v.source;
    assert s[0..|s|] == s;
    if |s| > 0 {
      var d := Decode(v.from, s);
      assert s[d.consumed..|s|] == s[d.consumed..];
      FitsSlice(v.from, s, d.consumed, |s|);
    }
  }

  /** A done iterator has nothing left to produce. */
  lemma DoneRemaining(v: UnicodeView, it: Iterator)
    requires Inv(v, it) && it.Done()
    ensures Remaining(v, it) == []
  {
  }

  /** One step: a not-done iterator dereferences to the first unit it has yet to produce, and `++`
      drops exactly that unit. */
  lemma NextStep(v: UnicodeView, it: Iterator)
    requires Inv(v, it) && !it.Done()
    ensures |Remaining(v, it)| > 0
    ensures Deref(v, it) == Remaining(v, it)[0]
    ensures Inv(v, Next(v, it))
    ensures Remaining(v, Next(v, it)) == Remaining(v, it)[1..]
  {
    var chars := it.nextChars.chars;
    var conv := Convert(v.from, v.to, v.source[it.first..it.last]);
    assert Remaining(v, it) == chars[it.idx..] + conv;
    if it.idx + 1 == it.nextChars.Size() && it.first != it.last {
      RefillStep(v, it);
    } else {
      AdvanceStep(v, it);
    }
  }

  /** The plain case of `++`: the index moves on within the buffer, or past its end when the
      source is used up. */
  lemma AdvanceStep(v: UnicodeView, it: Iterator)
    requires Inv(v, it) && !it.Done()
    requires !(it.idx + 1 == it.nextChars.Size() && it.first != it.last)
    ensures Next(v, it) == it.(idx := it.idx + 1)
    ensures Remaining(v, Next(v, it)) == Remaining(v, it)[1..]
  {
    AdvanceIndex(v, it);
    var chars := it.nextChars.chars;
    assert chars[it.idx..] == [chars[it.idx]] + chars[it.idx + 1..];
  }

  lemma AdvanceIndex(v: UnicodeView, it: Iterator)
    requires Inv(v, it) && !it.Done()
    requires !(it.idx + 1 == it.nextChars.Size() && it.first != it.last)
    ensures Next(v, it) == it.(idx := it.idx + 1)
  {
    assert (it.idx + 1) % 0x100 == it.idx + 1;
  }

  /** The refill case of `++`: the last unit of the buffer is handed out and the next code point's
      encoding takes its place. */
  lemma RefillStep(v: UnicodeView, it: Iterator)
    requires Inv(v, it) && it.idx + 1 == it.nextChars.Size() && it.first != it.last
    ensures Next(v, it) == Refill(v, it.first, it.last)
    ensures Remaining(v, Next(v, it)) == Convert(v.from, v.to, v.source[it.first..it.last])
  {
    assert (it.idx + 1) % 0x100 == it.idx + 1;
    var n := Refill(v, it.first, it.last);
    assert n.nextChars.chars[0..] == n.nextChars.chars;
  }

  /** The loop step of `Materialize`: collecting `*it` and moving on keeps the units collected
      followed by those still ahead equal to the whole conversion. */
  lemma CollectStep(v: UnicodeView, it: Iterator, out: seq<nat>, total: seq<nat>)
    requires Inv(v, it) && !it.Done()
    requires out + Remaining(v, it) == total
    ensures Inv(v, Next(v, it))
    ensures (out + [Deref(v, it)]) + Remaining(v, Next(v, it)) == total
    ensures |Remaining(v, Next(v, it))| < |Remaining(v, it)|
  {
    var rem := Remaining(v, it);
    NextStep(v, it);
    assert rem == [Deref(v, it)] + rem[1..];
  }

  /**
   What the C++ tests do with a view: walk from `begin()` with `++` until the
   iterator equals `end()`, collecting `*it`. The units collected are exactly
   the output of `convert` on the same source.
   */
  method Materialize(v: UnicodeView) returns (out: seq<nat>)
    requires v.Valid()
    ensures out == Convert(v.from, v.to, v.source)
  {
    ghost var total := Convert(v.from, v.to, v.source);
    var it := Begin(v);
    var e := End(v);
    BeginRemaining(v);
    out := [];
    while !Equal(it, e)
      invariant Inv(v, it) && e.Done()
      invariant out + Remaining(v, it) == total
      decreases |Remaining(v, it)|
    {
      CollectStep(v, it, out, total);
      out := out + [Deref(v, it)];
      it := Next(v, it);
    }
    EqualToDoneIsDone(it, e);
    DoneRemaining(v, it);
  }
}
