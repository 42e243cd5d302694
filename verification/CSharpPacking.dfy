/**
  Packed integers in C#: the range check and two's complement conversion of
  `IntegerToBits`, the packing loops, and sign extension on the way back.
 */
module CSharpPacking {
  import opened BitOps
  import opened BitString
  import opened BitFields
  import opened Results
  import opened Types

  /** Integer types up to 32 bits, which may be packed. */
  predicate Packable(k: Num) {
    k in {U8, I8, U16, I16, U32, I32}
  }

  /** `x | ~mask` with `mask` of `n` ones. */
  function OrNotMask(x: int, n: nat): int
    decreases n
  {
    if n == 0 then -1 else x % 2 + 2 * OrNotMask(x / 2, n - 1)
  }

  /** `x & mask` with `mask` of `n` ones. */
  function Low(x: int, n: nat): int {
    And(x, Mask(n))
  }

  /** `IntegerToBits`: `None` is the `OverflowException`. */
  function IntegerToBits(k: Num, x: int, n: nat): Option<int>
    requires n > 0
  {
    var negative := Signed(k) && And(x, Shl(1, n - 1)) != 0;
    var expanded := if negative then OrNotMask(x, n) else Low(x, n);
    if expanded != x then None else Some(expanded)
  }

  /** `x` fits `n` bits of the type's signedness. */
  predicate FitsBits(k: Num, x: int, n: nat)
    requires n > 0
  {
    if Signed(k) then -(Pow2(n - 1) as int) <= x < Pow2(n - 1) else 0 <= x < Pow2(n)
  }

  lemma LowStep(x: int, n: nat)
    ensures Low(x, n) == if n == 0 then 0 else x % 2 + 2 * Low(x / 2, n - 1)
  {
    hide Shl;
    ShlOne(n);
    if n > 0 {
      ShlOne(n - 1);
      assert Mask(n) == 2 * Mask(n - 1) + 1;
    }
  }

  lemma {:induction false} LowIsSame(x: int, n: nat)
    ensures Low(x, n) == x <==> 0 <= x < Pow2(n)
    decreases n
  {
    hide Low;
    LowStep(x, n);
    if n > 0 {
      LowIsSame(x / 2, n - 1);
    }
  }

  lemma {:induction false} OrNotIsSame(x: int, n: nat)
    ensures OrNotMask(x, n) == x <==> -(Pow2(n) as int) <= x < 0
    decreases n
  {
    if n > 0 {
      OrNotIsSame(x / 2, n - 1);
    }
  }

  lemma {:induction false} AndOneBit(x: int, i: nat)
    ensures And(x, Shl(1, i)) != 0 <==> TestBit(x, i)
    decreases i
  {
    if i == 0 {
      assert And(x, 1) == x % 2 + 2 * And(x / 2, 0);
    } else {
      AndOneBit(x / 2, i - 1);
      ShlOne(i);
      ShlOne(i - 1);
      assert Shl(1, i) == 2 * Shl(1, i - 1);
    }
  }

  /** The range check accepts a value exactly when it fits, and then does not change it. */
  lemma AcceptsExactlyWhatFits(k: Num, x: int, n: nat)
    requires n > 0
    ensures IntegerToBits(k, x, n) == if FitsBits(k, x, n) then Some(x) else None
  {
    hide And, Shl, Low, OrNotMask, TestBit;
    AndOneBit(x, n - 1);
    LowIsSame(x, n);
    OrNotIsSame(x, n);
    if -(Pow2(n) as int) <= x < Pow2(n) {
      TopBitOfRange(x, n);
    }
  }

  /** `SerializePackedPrimitive`: false when the value does not fit or the index leaves the buffer. */
  method SerializePacked(buffer: array<byte>, offset: nat, k: Num, n: nat, x: int) returns (ok: bool, next: nat)
    requires Packable(k) && 0 < n <= 8 * Width(k) && offset <= 8 * buffer.Length
    modifies buffer
    ensures ok <==> FitsBits(k, x, n) && offset + n <= 8 * buffer.Length
    ensures ok ==> next == offset + n && BitsOf(buffer[..]) == Splice(old(BitsOf(buffer[..])), offset, NatBits(x, n))
  {
    hide BitsOf, NatBits, Placed, BitFields.Extract, Insert, FitsBits, IntegerToBits;
    ghost var before := BitsOf(buffer[..]);
    AcceptsExactlyWhatFits(k, x, n);
    var bits := IntegerToBits(k, x, n);
    if bits.None? {
      return false, offset;
    }
    var val := bits.value;
    var byteIndex := offset / 8;
    var bitsRemaining: nat := n;
    var bitPosition := offset;
    PlacedNone(buffer[..], offset, n, x);
    while bitsRemaining > 0
      invariant bitsRemaining <= n && bitPosition == offset + (n - bitsRemaining)
      invariant bitsRemaining > 0 ==> byteIndex == bitPosition / 8
      invariant Placed(before, buffer[..], offset, n, x, bitsRemaining)
    {
      var bitsToFill := 8 - bitPosition % 8;
      var bitsToPlace := if bitsRemaining <= bitsToFill then bitsRemaining else bitsToFill;
      var shift := bitsToFill - bitsToPlace;
      var bitValue := BitFields.Extract(val, bitsRemaining - bitsToPlace, bitsToPlace);
      if byteIndex >= buffer.Length {
        return false, offset;
      }
      PlacedRound(before, buffer[..], offset, n, x, bitsRemaining, bitsToPlace);
      PackedByte(buffer[byteIndex], x, bitsRemaining - bitsToPlace, bitsToPlace, bitPosition % 8);
      ghost var was := buffer[..];
      buffer[byteIndex] := Insert(buffer[byteIndex], bitValue, bitsToPlace, shift);
      assert buffer[..] == was[byteIndex := RoundByte(was[byteIndex], x, bitPosition, bitsRemaining, bitsToPlace)];
      bitPosition := bitPosition + bitsToPlace;
      byteIndex := byteIndex + 1;
      bitsRemaining := bitsRemaining - bitsToPlace;
    }
    PlacedAll(before, buffer[..], offset, n, x);
    ok, next := true, offset + n;
  }

  /** The value that `n` bits stand for in a type: sign-extended when the type is signed. */
  function Extended(k: Num, val: nat, n: nat): int
    requires n > 0
  {
    if Signed(k) && TestBit(val, n - 1) then val - Pow2(n) else val
  }

  /** The low bytes of a `long`, read as a number of the type. */
  function Truncated(k: Num, val: int): (x: int)
    ensures InRange(k, x)
  {
    LowBound(val, 8 * Width(k));
    Value(k, Low(val, 8 * Width(k)))
  }

  lemma LowBound(val: int, w: nat)
    ensures 0 <= Low(val, w) < Pow2(w)
  {
    ShlOne(w);
  }

  lemma TruncatedInRange(k: Num, val: int)
    requires InRange(k, val)
    ensures Truncated(k, val) == val
  {
    hide Low;
    if val < 0 {
      LowOfNegative(val, 8 * Width(k));
    } else {
      LowIsSame(val, 8 * Width(k));
    }
  }

  /** `DeserializePackedPrimitive`: `None` when the index leaves the buffer. */
  method DeserializePacked(buffer: seq<byte>, offset: nat, k: Num, n: nat) returns (r: Option<int>)
    requires Packable(k) && 0 < n <= 8 * Width(k)
    ensures r == if offset + n > 8 * |buffer| then None
                 else Some(Truncated(k, Extended(k, NatOf(BitsOf(buffer)[offset..offset + n]), n)))
  {
    hide BitsOf, NatOf, Gathered, TestBit, Shl, Or, BitFields.Extract, And, OrNotMask, Truncated;
    var val: nat := 0;
    var byteIndex := offset / 8;
    var bitsRemaining: nat := n;
    var bitPosition := offset;
    ghost var inside := offset + n <= 8 * |buffer|;
    if inside {
      GatheredNone(BitsOf(buffer)[offset..offset + n]);
    }
    while bitsRemaining > 0
      invariant bitsRemaining <= n && bitPosition == offset + (n - bitsRemaining)
      invariant bitsRemaining > 0 ==> byteIndex == bitPosition / 8
      invariant bitsRemaining < n ==> bitPosition <= 8 * |buffer|
      invariant inside ==> Gathered(BitsOf(buffer)[offset..offset + n], val, bitsRemaining)
    {
      var bitsToFill := 8 - bitPosition % 8;
      var bitsToPlace := if bitsRemaining <= bitsToFill then bitsRemaining else bitsToFill;
      var shift := bitsToFill - bitsToPlace;
      if byteIndex >= |buffer| {
        return None;
      }
      if inside {
        UnpackRound(buffer, offset, n, val, bitsRemaining, bitsToPlace);
      }
      var bitValue := BitFields.Extract(buffer[byteIndex], shift, bitsToPlace);
      bitPosition := bitPosition + bitsToPlace;
      byteIndex := byteIndex + 1;
      bitsRemaining := bitsRemaining - bitsToPlace;
      val := Or(val, Shl(bitValue, bitsRemaining));
    }
    GatheredAll(BitsOf(buffer)[offset..offset + n], val);
    NatOfBound(BitsOf(buffer)[offset..offset + n]);
    AndOneBit(val, n - 1);
    SignExtension(val, n);
    var signed: int := if Signed(k) && And(val, Shl(1, n - 1)) != 0 then OrNotMask(val, n) else val;
    r := Some(Truncated(k, signed));
  }

  /** `val | ~mask` fills everything above `n` bits with ones. */
  lemma {:induction false} SignExtension(val: nat, n: nat)
    requires val < Pow2(n)
    ensures OrNotMask(val, n) == val - Pow2(n)
    decreases n
  {
    if n > 0 {
      SignExtension(val / 2, n - 1);
    }
  }

  lemma {:induction false} NatOfLow(x: int, n: nat)
    ensures NatOf(NatBits(x, n)) == Low(x, n)
    decreases n
  {
    hide Low;
    LowStep(x, n);
    if n > 0 {
      NatBitsHalf(x, n);
      assert NatBits(x, n)[..n - 1] == NatBits(x / 2, n - 1);
      NatOfLow(x / 2, n - 1);
    }
  }

  lemma {:induction false} LowOfNegative(x: int, n: nat)
    requires -(Pow2(n) as int) <= x < 0
    ensures Low(x, n) == x + Pow2(n)
    decreases n
  {
    hide Low;
    LowStep(x, n);
    if n > 0 {
      LowOfNegative(x / 2, n - 1);
    }
  }

  lemma FitsType(k: Num, x: int, n: nat)
    requires Packable(k) && 0 < n <= 8 * Width(k) && FitsBits(k, x, n)
    ensures InRange(k, x)
  {
    Pow2Mono(n, 8 * Width(k));
    Pow2Mono(n - 1, 8 * Width(k) - 1);
  }

  /** Packing and unpacking gives the value back, sign included, for every value that fits. */
  lemma PackedRoundTrip(k: Num, x: int, n: nat)
    requires Packable(k) && 0 < n <= 8 * Width(k) && FitsBits(k, x, n)
    ensures Truncated(k, Extended(k, NatOf(NatBits(x, n)), n)) == x
  {
    hide Low, NatOf, NatBits, TestBit, InRange, Truncated;
    FitsType(k, x, n);
    TruncatedInRange(k, x);
    NatOfLow(x, n);
    assert Pow2(n) == 2 * Pow2(n - 1);
    if x < 0 {
      LowOfNegative(x, n);
      TopBitOfRange(x + Pow2(n), n);
    } else {
      LowIsSame(x, n);
      TopBitOfRange(x, n);
    }
  }
}
