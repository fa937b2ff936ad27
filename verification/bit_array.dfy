/**
 The bit-sequence helpers of the current word codec (`BitArrayUtils` in
 IpShared/WordEncoder.cs). A `BitArray` is a sequence of booleans in
 logical order; every helper here reads and writes it most significant bit
 first, so index 0 is the highest-weight bit.
 */
module BitArrayUtils {
  import opened Prelude

  type Bits = seq<bool>

  /** Bit `k` (weight 2^k) of a natural number. */
  function Bit(u: nat, k: nat): bool {
    if k == 0 then u % 2 == 1 else Bit(u / 2, k - 1)
  }

  /** The value of a bit sequence read most significant bit first. */
  function Value(b: Bits): nat {
    if |b| == 0 then 0 else 2 * Value(b[..|b| - 1]) + (if b[|b| - 1] then 1 else 0)
  }

  /** The value of a bit sequence read least significant bit first (bit i weighs 2^i). */
  function LsbValue(b: Bits): nat {
    if |b| == 0 then 0 else (if b[0] then 1 else 0) + 2 * LsbValue(b[1..])
  }

  lemma {:induction false} ValueBound(b: Bits)
    ensures Value(b) < Pow2(|b|)
  {
    if |b| > 0 {
      ValueBound(b[..|b| - 1]);
    }
  }

  lemma {:induction false} LsbValueBound(b: Bits)
    ensures LsbValue(b) < Pow2(|b|)
  {
    if |b| > 0 {
      LsbValueBound(b[1..]);
    }
  }

  /**
   `FromInt(value, length)`: bit i is `(value & (1 << (length - 1 - i))) != 0`,
   the shift count taken modulo 32 as .NET does and `value` read in two's
   complement.
   */
  function FromInt(value: int, length: nat): (bits: Bits)
    ensures |bits| == length
  {
    seq(length, i requires 0 <= i < length => Bit(Unsigned32(value), (length - 1 - i) % 32))
  }

  /**
   `ToInt`: throws `ArgumentException` above 32 bits; otherwise ORs
   `1 << (Length - 1 - i)` for every set bit, so a set bit 0 of a 32-bit
   array makes the result negative.
   */
  function ToInt(bits: Bits): (r: Result<Int32>)
    ensures r.Ok? <==> |bits| <= 32
    ensures r.Err? ==> r.error == ArgumentException
    ensures |bits| < 32 ==> r.Ok? && 0 <= r.value < Pow2(|bits|)
  {
    if |bits| > 32 then Err(ArgumentException)
    else
      ValueBound(bits);
      Pow2Monotone(|bits|, 32);
      Pow2Constants();
      if |bits| < 32 then Pow2Monotone(|bits|, 31); Ok(Signed32(Value(bits)))
      else Ok(Signed32(Value(bits)))
  }

  /** The `n`-bit big-endian representation of `v`. */
  function MsbBits(v: nat, n: nat): (b: Bits)
    ensures |b| == n
  {
    seq(n, i requires 0 <= i < n => Bit(v, n - 1 - i))
  }

  /** On values that fit in 32 bits and widths up to 32, `FromInt` is the plain representation. */
  lemma FromIntIsMsbBits(v: int, n: nat)
    requires 0 <= v < 0x1_0000_0000 && n <= 32
    ensures FromInt(v, n) == MsbBits(v, n)
  {
    forall i | 0 <= i < n
      ensures FromInt(v, n)[i] == MsbBits(v, n)[i]
    {
      assert Unsigned32(v) == v;
      assert (n - 1 - i) % 32 == n - 1 - i;
      assert FromInt(v, n)[i] == Bit(v, n - 1 - i);
    }
  }

  /** Bit i of `FromInt(v, n)` is the bit of weight 2^(n - 1 - i) of `v`. */
  lemma FromIntAt(v: int, n: nat, i: nat)
    requires 0 <= v < 0x1_0000_0000 && i < n <= 32
    ensures FromInt(v, n)[i] == Bit(v, n - 1 - i)
  {
    FromIntIsMsbBits(v, n);
  }

  /** Dropping the last bit of a representation halves the value. */
  lemma MsbBitsFront(v: nat, n: nat)
    requires n > 0
    ensures MsbBits(v, n)[..n - 1] == MsbBits(v / 2, n - 1)
    ensures MsbBits(v, n)[n - 1] == (v % 2 == 1)
  {
    var b := MsbBits(v, n);
    var front := MsbBits(v / 2, n - 1);
    forall i | 0 <= i < n - 1
      ensures b[i] == front[i]
    {
      assert b[i] == Bit(v, n - 1 - i);
      assert front[i] == Bit(v / 2, n - 2 - i);
    }
    assert b[n - 1] == Bit(v, 0);
  }

  lemma {:induction false} ValueOfMsbBits(v: nat, n: nat)
    requires v < Pow2(n)
    ensures Value(MsbBits(v, n)) == v
  {
    if n > 0 {
      MsbBitsFront(v, n);
      ValueOfMsbBits(v / 2, n - 1);
    }
  }

  lemma {:induction false} MsbBitsOfValue(b: Bits)
    ensures MsbBits(Value(b), |b|) == b
  {
    var n := |b|;
    if n > 0 {
      var front := b[..n - 1];
      MsbBitsOfValue(front);
      MsbBitsFront(Value(b), n);
      assert Value(b) / 2 == Value(front);
      assert b == front + [b[n - 1]];
    }
  }

  /** Reading back the bits `FromInt` wrote gives the value it was given. */
  lemma ValueOfFromInt(v: nat, n: nat)
    requires n <= 32 && v < Pow2(n)
    ensures Value(FromInt(v, n)) == v
  {
    Pow2Monotone(n, 32);
    Pow2Constants();
    FromIntIsMsbBits(v, n);
    ValueOfMsbBits(v, n);
  }

  /** Writing a bit sequence's value back with `FromInt` at its own width gives the sequence. */
  lemma FromIntOfValue(b: Bits)
    requires |b| <= 32
    ensures FromInt(Value(b), |b|) == b
  {
    ValueBound(b);
    Pow2Monotone(|b|, 32);
    Pow2Constants();
    FromIntIsMsbBits(Value(b), |b|);
    MsbBitsOfValue(b);
  }

  /** `ToInt` inverts `FromInt` on every value the width can hold. */
  lemma FromIntToIntRoundTrip(v: int, n: nat)
    requires n <= 31 && 0 <= v < Pow2(n)
    ensures ToInt(FromInt(v, n)) == Ok(v)
  {
    ValueOfFromInt(v, n);
    Pow2Monotone(n, 31);
    Pow2Constants();
  }

  /** `FromInt` inverts `ToInt` on every sequence `ToInt` reads as non-negative. */
  lemma ToIntFromIntRoundTrip(b: Bits)
    requires |b| <= 31
    ensures ToInt(b).Ok? && FromInt(ToInt(b).value, |b|) == b
  {
    ValueBound(b);
    Pow2Monotone(|b|, 31);
    Pow2Constants();
    FromIntOfValue(b);
  }

  /** `FromBigEndianBytes`: eight bits per byte, most significant bit first. */
  function FromBigEndianBytes(bytes: seq<Byte>): (bits: Bits)
    ensures |bits| == 8 * |bytes|
  {
    if |bytes| == 0 then [] else FromInt(bytes[0], 8) + FromBigEndianBytes(bytes[1..])
  }

  /** The bytes of a bit sequence whose length is a multiple of 8, eight bits each, MSB first. */
  function BytesOf(bits: Bits): (bytes: seq<Byte>)
    requires |bits| % 8 == 0
    ensures |bytes| == |bits| / 8
  {
    if |bits| == 0 then []
    else
      ValueBound(bits[..8]);
      Pow2Constants();
      [Value(bits[..8]) as Byte] + BytesOf(bits[8..])
  }

  /** `ToBigEndianBytes`: throws `ArgumentException` unless the length is a multiple of 8. */
  function ToBigEndianBytes(bits: Bits): (r: Result<seq<Byte>>)
    ensures r.Ok? <==> |bits| % 8 == 0
    ensures r.Ok? ==> |r.value| == |bits| / 8
    ensures r.Err? ==> r.error == ArgumentException
  {
    if |bits| % 8 != 0 then Err(ArgumentException) else Ok(BytesOf(bits))
  }

  lemma {:induction false} BytesOfFromBigEndianBytes(bytes: seq<Byte>)
    ensures BytesOf(FromBigEndianBytes(bytes)) == bytes
  {
    if |bytes| > 0 {
      var bits := FromBigEndianBytes(bytes);
      Pow2Constants();
      assert bits[..8] == FromInt(bytes[0], 8);
      assert bits[8..] == FromBigEndianBytes(bytes[1..]);
      ValueOfFromInt(bytes[0], 8);
      BytesOfFromBigEndianBytes(bytes[1..]);
    }
  }

  /** Bytes survive the trip through bits and back. */
  lemma BigEndianBytesRoundTrip(bytes: seq<Byte>)
    ensures ToBigEndianBytes(FromBigEndianBytes(bytes)) == Ok(bytes)
  {
    BytesOfFromBigEndianBytes(bytes);
  }

  /** Bits whose length is a multiple of 8 survive the trip through bytes and back. */
  lemma {:induction false} BigEndianBitsRoundTrip(bits: Bits)
    requires |bits| % 8 == 0
    ensures FromBigEndianBytes(ToBigEndianBytes(bits).value) == bits
  {
    if |bits| > 0 {
      var bytes := BytesOf(bits);
      ValueBound(bits[..8]);
      Pow2Constants();
      FromIntOfValue(bits[..8]);
      BigEndianBitsRoundTrip(bits[8..]);
      assert bytes[1..] == BytesOf(bits[8..]);
      assert bits == bits[..8] + bits[8..];
    }
  }

  /** `Concatenate`: the arrays one after another, in order. */
  function Concatenate(arrays: seq<Bits>): (r: Bits)
    ensures |r| == TotalLength(arrays)
  {
    if |arrays| == 0 then [] else arrays[0] + Concatenate(arrays[1..])
  }

  function TotalLength(arrays: seq<Bits>): nat {
    if |arrays| == 0 then 0 else |arrays[0]| + TotalLength(arrays[1..])
  }

  /** Concatenation distributes over joining the lists of arrays. */
  lemma {:induction false} ConcatenateAppend(xs: seq<Bits>, ys: seq<Bits>)
    ensures Concatenate(xs + ys) == Concatenate(xs) + Concatenate(ys)
  {
    if |xs| > 0 {
      assert (xs + ys)[1..] == xs[1..] + ys;
      ConcatenateAppend(xs[1..], ys);
    } else {
      assert xs + ys == ys;
    }
  }

  /** Concatenating two arrays keeps every bit of each, first array first. */
  lemma ConcatenatePair(a: Bits, b: Bits)
    ensures Concatenate([a, b]) == a + b
    ensures |Concatenate([a, b])| == |a| + |b|
  {
    assert [a, b][1..] == [b];
  }

  /**
   The chunks `Split` produces for a positive chunk size: consecutive runs of
   `chunkSize` bits, the last one shorter when the length is not a multiple.
   */
  function Chunks(source: Bits, chunkSize: nat): (chunks: seq<Bits>)
    requires chunkSize > 0
    ensures Concatenate(chunks) == source
    ensures forall k | 0 <= k < |chunks| :: 0 < |chunks[k]| <= chunkSize
    ensures forall k | 0 <= k < |chunks| - 1 :: |chunks[k]| == chunkSize
    decreases |source|
  {
    if |source| == 0 then []
    else
      var size := if chunkSize < |source| then chunkSize else |source|;
      var rest := Chunks(source[size..], chunkSize);
      assert source == source[..size] + source[size..];
      [source[..size]] + rest
  }

  /**
   `Split`. The list capacity `(Length + chunkSize - 1) / chunkSize` is
   computed in 32-bit `int`: a zero chunk size divides by zero, and a
   negative capacity (a sum that wraps past `int.MaxValue`, or a negative
   chunk size on a non-empty source) is rejected by the `List` constructor.
   A negative chunk size that gets past it fails in the `BitArray`
   constructor. When the sum wraps but the capacity is 0, the loop index
   `i += chunkSize` wraps as well after the second chunk, and the next
   chunk length is negative.
   */
  function Split(source: Bits, chunkSize: Int32): (r: Result<seq<Bits>>)
    requires |source| < 0x8000_0000
    ensures r.Ok? <==>
      || (chunkSize > 0 && |source| + chunkSize <= 0x8000_0000)
      || (chunkSize >= |source| && |source| + 2 * chunkSize > 0x1_0000_0001)
      || (chunkSize < 0 && |source| == 0)
    ensures r.Err? ==> r.error == (if chunkSize == 0 then DivideByZeroException else ArgumentOutOfRangeException)
    ensures r.Ok? && chunkSize > 0 ==> Concatenate(r.value) == source
    ensures r.Ok? && chunkSize > 0 ==> forall k | 0 <= k < |r.value| - 1 :: |r.value[k]| == chunkSize
  {
    if chunkSize == 0 then Err(DivideByZeroException)
    else
      var capacity := DivTrunc(Wrap32(|source| + chunkSize - 1), chunkSize);
      CapacityOfSplit(|source|, chunkSize);
      if capacity < 0 then Err(ArgumentOutOfRangeException)
      else if |source| == 0 then Ok([])
      else if chunkSize < 0 then Err(ArgumentOutOfRangeException)
      else if |source| + chunkSize - 1 < 0x8000_0000 || chunkSize >= |source| then Ok(Chunks(source, chunkSize))
      else Err(ArgumentOutOfRangeException)
  }

  /**
   When the list capacity `Split` computes is non-negative: always for an
   empty source with a negative chunk size, and for a positive chunk size
   exactly when the sum does not wrap or wraps far enough.
   */
  lemma CapacityOfSplit(length: nat, chunkSize: Int32)
    requires length < 0x8000_0000 && chunkSize != 0
    ensures length == 0 && chunkSize < 0 ==> DivTrunc(Wrap32(length + chunkSize - 1), chunkSize) >= 0
    ensures chunkSize > 0 ==>
      (DivTrunc(Wrap32(length + chunkSize - 1), chunkSize) >= 0 <==>
        length + chunkSize <= 0x8000_0000 || length + 2 * chunkSize > 0x1_0000_0001)
  {
    var sum := length + chunkSize - 1;
    if chunkSize > 0 {
      if sum < 0x8000_0000 {
        assert Wrap32(sum) == sum;
        assert DivTrunc(sum, chunkSize) == sum / chunkSize;
      } else {
        WrappedCapacity(sum, chunkSize);
      }
    } else if length == 0 {
      if chunkSize == -0x8000_0000 {
        assert Wrap32(sum) == 0x7FFF_FFFF;
        assert DivTrunc(0x7FFF_FFFF, chunkSize) == -(0x7FFF_FFFF / 0x8000_0000);
      } else {
        assert Wrap32(sum) == sum;
        assert DivTrunc(sum, chunkSize) == (-sum) / (-chunkSize);
      }
    }
  }

  /** A positive sum that wraps to a negative `int` divides to a non-negative quotient only when the wrap is short of the divisor. */
  lemma WrappedCapacity(sum: int, chunkSize: int)
    requires 0x8000_0000 <= sum < 0x1_0000_0000 && 0 < chunkSize < 0x8000_0000
    ensures DivTrunc(Wrap32(sum), chunkSize) >= 0 <==> 0x1_0000_0000 - sum < chunkSize
  {
    var w := sum - 0x1_0000_0000;
    assert Wrap32(sum) == w;
    assert DivTrunc(w, chunkSize) == -((-w) / chunkSize);
    QuotientZero(-w, chunkSize);
  }

  lemma QuotientZero(x: nat, n: int)
    requires n > 0
    ensures x / n == 0 <==> x < n
  {
  }

  /**
   The capacity sum wraps for two bits in chunks of `int.MaxValue`: it
   becomes `int.MinValue`, the quotient -1, and the `List` constructor throws.
   */
  lemma SplitCapacityOverflow()
    ensures Split([false, false], 0x7FFF_FFFF) == Err(ArgumentOutOfRangeException)
  {
    CapacityOfSplit(2, 0x7FFF_FFFF);
  }

  /** Each byte's eight bits, as a separate array. */
  function ByteBits(bytes: seq<Byte>): (chunks: seq<Bits>)
    ensures |chunks| == |bytes|
  {
    seq(|bytes|, i requires 0 <= i < |bytes| => FromInt(bytes[i], 8))
  }

  /** Splitting the bits of a byte sequence into octets gives each byte's bits. */
  lemma {:induction false} SplitBytes(bytes: seq<Byte>)
    requires |bytes| < 0x1000_0000
    ensures Split(FromBigEndianBytes(bytes), 8) == Ok(ByteBits(bytes))
  {
    if |bytes| > 0 {
      SplitBytes(bytes[1..]);
      var bits := FromBigEndianBytes(bytes);
      assert bits[..8] == FromInt(bytes[0], 8);
      assert bits[8..] == FromBigEndianBytes(bytes[1..]);
      assert Chunks(bits, 8) == [bits[..8]] + Chunks(bits[8..], 8);
      assert ByteBits(bytes) == [FromInt(bytes[0], 8)] + ByteBits(bytes[1..]);
    }
  }

  /** `GetRange`: throws `ArgumentOutOfRangeException` unless the range lies inside the source. */
  function GetRange(source: Bits, index: int, count: int): (r: Result<Bits>)
    ensures r.Ok? <==> 0 <= index && 0 <= count && index + count <= |source|
    ensures r.Ok? ==> |r.value| == count && forall i | 0 <= i < count :: r.value[i] == source[index + i]
    ensures r.Err? ==> r.error == ArgumentOutOfRangeException
  {
    if index < 0 || count < 0 || index + count > |source| then Err(ArgumentOutOfRangeException)
    else Ok(source[index..index + count])
  }

  /** `Reverse`: bit i of the result is bit `Length - 1 - i` of the source. */
  function Reverse(source: Bits): (r: Bits)
    ensures |r| == |source|
  {
    seq(|source|, i requires 0 <= i < |source| => source[|source| - 1 - i])
  }

  /** Reversing twice gives back the source. */
  lemma ReverseInvolution(source: Bits)
    ensures Reverse(Reverse(source)) == source
  {
  }

  /** Reading a sequence LSB first is reading its reverse MSB first. */
  lemma {:induction false} LsbValueIsReversedValue(b: Bits)
    ensures LsbValue(b) == Value(Reverse(b))
  {
    if |b| > 0 {
      LsbValueIsReversedValue(b[1..]);
      var r := Reverse(b);
      assert r[..|r| - 1] == Reverse(b[1..]);
    }
  }

  /** Reading bits 0..n-1 of `v` least significant first gives back `v`. */
  lemma {:induction false} LsbValueOfBits(v: nat, n: nat)
    requires v < Pow2(n)
    ensures LsbValue(seq(n, i requires 0 <= i < n => Bit(v, i))) == v
  {
    if n > 0 {
      var b := seq(n, i requires 0 <= i < n => Bit(v, i));
      LsbValueOfBits(v / 2, n - 1);
      assert b[1..] == seq(n - 1, i requires 0 <= i < n - 1 => Bit(v / 2, i));
    }
  }
}
