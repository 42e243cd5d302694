/**
  One round of the bit packing and unpacking loops. The three implementations
  run the same round, on Python integers, on C `uint64_t` and on C# `long`; what
  it does to the buffer's bit string is stated once here.
 */
module BitFields {
  import opened BitOps
  import opened BitString

  /** `b & ~(mask << shift) | (bits << shift)` with `mask` of `place` ones. */
  function Insert(b: byte, bits: nat, place: nat, shift: nat): nat {
    Or(AndNot(b, Shl(Mask(place), shift)), Shl(bits, shift))
  }

  /** `(value >> drop) & mask` with `mask` of `place` ones. */
  function Extract(value: int, drop: nat, place: nat): nat {
    And(Shr(value, drop), Mask(place))
  }

  lemma ExtractBit(value: int, drop: nat, place: nat, i: nat)
    ensures TestBit(Extract(value, drop, place), i) == (i < place && TestBit(value, i + drop))
  {
    TestBitAnd(Shr(value, drop), Mask(place), i);
    TestBitMask(place, i);
    TestBitShr(value, drop, i);
  }

  lemma ExtractBound(value: int, drop: nat, place: nat)
    ensures Extract(value, drop, place) < Pow2(place)
  {
    ShlOne(place);
  }

  lemma InsertBit(b: byte, bits: nat, place: nat, shift: nat, i: nat)
    requires bits < Pow2(place)
    ensures TestBit(Insert(b, bits, place, shift), i) ==
            if shift <= i < shift + place then TestBit(bits, i - shift) else TestBit(b, i)
  {
    var m := Shl(Mask(place), shift);
    TestBitOr(AndNot(b, m), Shl(bits, shift), i);
    TestBitAndNot(b, m, i);
    TestBitShl(Mask(place), shift, i);
    TestBitShl(bits, shift, i);
    if i >= shift {
      TestBitMask(place, i - shift);
      if i >= shift + place {
        HighBits(bits, place, i - shift);
      }
    }
  }

  lemma InsertBound(b: byte, bits: nat, place: nat, shift: nat)
    requires bits < Pow2(place) && place + shift <= 8
    ensures Insert(b, bits, place, shift) < 256
  {
    assert Pow2(8) == 256;
    ShlBound(bits, shift, place);
    Pow2Mono(place + shift, 8);
    OrBound(AndNot(b, Shl(Mask(place), shift)), Shl(bits, shift), 8);
  }

  lemma Pow2Mono(a: nat, b: nat)
    requires a <= b
    ensures Pow2(a) <= Pow2(b)
    decreases b
  {
    if a < b {
      Pow2Mono(a, b - 1);
    }
  }

  // ---------------------------------------------------------------- Bytes and splices

  lemma SetByte(buf: seq<byte>, k: nat, v: byte)
    requires k < |buf|
    ensures BitsOf(buf[k := v]) == Splice(BitsOf(buf), 8 * k, NatBits(v, 8))
  {
    var a, z := buf[..k], buf[k + 1..];
    assert buf[k := v] == a + [v] + z;
    assert buf == a + [buf[k]] + z;
    BitsOfAppend(a, [v]);
    BitsOfAppend(a + [v], z);
    BitsOfAppend(a, [buf[k]]);
    BitsOfAppend(a + [buf[k]], z);
    BitsOfByte(v);
  }

  lemma SpliceAgain(b: seq<bool>, off: nat, f: seq<bool>, g: seq<bool>)
    requires off + |f| + |g| <= |b|
    ensures Splice(Splice(b, off, f), off + |f|, g) == Splice(b, off, f + g)
  {
  }

  /** Bit `j` from the top of the byte that a round of packing leaves. */
  lemma PackedBit(b: byte, value: int, drop: nat, place: nat, r: nat, j: nat)
    requires 1 <= place && r + place <= 8 && j < 8
    ensures var b' := Insert(b, Extract(value, drop, place), place, 8 - r - place);
            TestBit(b', 7 - j) ==
            if r <= j < r + place then TestBit(Shr(value, drop), place - 1 - (j - r)) else TestBit(b, 7 - j)
  {
    var shift := 8 - r - place;
    ExtractBound(value, drop, place);
    InsertBit(b, Extract(value, drop, place), place, shift, 7 - j);
    if r <= j < r + place {
      ExtractBit(value, drop, place, 7 - j - shift);
      TestBitShr(value, drop, 7 - j - shift);
    }
  }

  lemma PackedByte(b: byte, value: int, drop: nat, place: nat, r: nat)
    requires 1 <= place && r + place <= 8
    ensures var b' := Insert(b, Extract(value, drop, place), place, 8 - r - place);
            b' < 256 && NatBits(b', 8) == Splice(NatBits(b, 8), r, NatBits(Shr(value, drop), place))
  {
    ExtractBound(value, drop, place);
    InsertBound(b, Extract(value, drop, place), place, 8 - r - place);
    var b' := Insert(b, Extract(value, drop, place), place, 8 - r - place);
    var l, m := NatBits(b', 8), Splice(NatBits(b, 8), r, NatBits(Shr(value, drop), place));
    forall j | 0 <= j < 8 ensures l[j] == m[j] {
      PackedBit(b, value, drop, place, r, j);
    }
  }

  lemma SpliceInByte(b: seq<bool>, k: nat, r: nat, f: seq<bool>)
    requires 8 * k + 8 <= |b| && r + |f| <= 8
    ensures Splice(b, 8 * k, Splice(b[8 * k..8 * k + 8], r, f)) == Splice(b, 8 * k + r, f)
  {
  }

  lemma ByteAt(buf: seq<byte>, k: nat)
    requires k < |buf|
    ensures BitsOf(buf)[8 * k..8 * k + 8] == NatBits(buf[k], 8)
  {
    BitsOfSlice(buf, k, k + 1);
    assert buf[k..k + 1] == [buf[k]];
    BitsOfByte(buf[k]);
  }

  /**
    One round of packing: the `place` bits of `value` above its low `drop` ones
    go to bit `pos` of the buffer, which stays within one byte.
   */
  lemma PackRound(buf: seq<byte>, pos: nat, value: int, drop: nat, place: nat)
    requires 1 <= place <= 8 - pos % 8 && pos / 8 < |buf|
    ensures var b' := Insert(buf[pos / 8], Extract(value, drop, place), place, 8 - pos % 8 - place);
            && b' < 256
            && BitsOf(buf[pos / 8 := b']) == Splice(BitsOf(buf), pos, NatBits(Shr(value, drop), place))
  {
    var k, r := pos / 8, pos % 8;
    var b' := Insert(buf[k], Extract(value, drop, place), place, 8 - r - place);
    PackedByte(buf[k], value, drop, place, r);
    ByteAt(buf, k);
    SetByte(buf, k, b');
    SpliceInByte(BitsOf(buf), k, r, NatBits(Shr(value, drop), place));
  }

  /** The next `place` of `size` bits, `remaining` of which are still to be placed. */
  lemma BitsOfChunk(value: int, size: nat, remaining: nat, place: nat)
    requires place <= remaining <= size
    ensures NatBits(value, size)[..size - remaining] + NatBits(Shr(value, remaining - place), place) ==
            NatBits(value, size)[..size - remaining + place]
  {
    var done := size - remaining;
    var l, r := NatBits(value, size)[..done] + NatBits(Shr(value, remaining - place), place),
                NatBits(value, size)[..done + place];
    forall i | 0 <= i < |l| ensures l[i] == r[i] {
      if i >= done {
        TestBitShr(value, remaining - place, place - 1 - (i - done));
      }
    }
  }

  /** All but the low `remaining` of the `size` bits of `value` are in place from bit `offset` on. */
  ghost predicate Placed(before: seq<bool>, now: seq<byte>, offset: nat, size: nat, value: int, remaining: nat) {
    && remaining <= size && offset + (size - remaining) <= |before|
    && BitsOf(now) == Splice(before, offset, NatBits(value, size)[..size - remaining])
  }

  lemma PlacedNone(buf: seq<byte>, offset: nat, size: nat, value: int)
    requires offset <= 8 * |buf|
    ensures Placed(BitsOf(buf), buf, offset, size, value, size)
  {
    hide BitsOf;
    assert Splice(BitsOf(buf), offset, []) == BitsOf(buf);
  }

  lemma PlacedAll(before: seq<bool>, now: seq<byte>, offset: nat, size: nat, value: int)
    requires Placed(before, now, offset, size, value, 0)
    ensures offset + size <= |before| && BitsOf(now) == Splice(before, offset, NatBits(value, size))
  {
    hide BitsOf;
    assert NatBits(value, size)[..size] == NatBits(value, size);
  }

  /** The new value of the byte that a round of packing changes. */
  function RoundByte(b: byte, value: int, pos: nat, remaining: nat, place: nat): (r: byte)
    requires 1 <= place <= 8 - pos % 8 && place <= remaining
  {
    PackedByte(b, value, remaining - place, place, pos % 8);
    Insert(b, Extract(value, remaining - place, place), place, 8 - pos % 8 - place)
  }

  /** What a round of packing keeps. */
  lemma PlacedRound(before: seq<bool>, now: seq<byte>, offset: nat, size: nat, value: int, remaining: nat, place: nat)
    requires Placed(before, now, offset, size, value, remaining)
    requires var pos := offset + (size - remaining);
             1 <= place <= 8 - pos % 8 && place <= remaining && pos / 8 < |now|
    ensures var pos := offset + (size - remaining);
            Placed(before, now[pos / 8 := RoundByte(now[pos / 8], value, pos, remaining, place)],
                   offset, size, value, remaining - place)
  {
    hide BitsOf, NatBits, Insert, Extract, Shr;
    var pos, bits := offset + (size - remaining), NatBits(value, size);
    PackRound(now, pos, value, remaining - place, place);
    BitsOfChunk(value, size, remaining, place);
    SpliceAgain(before, offset, bits[..size - remaining], NatBits(Shr(value, remaining - place), place));
  }

  // ---------------------------------------------------------------- Unpacking

  /** `val` holds, above its low `remaining` bits, the leading bits of `bits`. */
  ghost predicate Gathered(bits: seq<bool>, val: nat, remaining: nat) {
    remaining <= |bits| && val < Pow2(|bits|) &&
    forall i: nat :: i < |bits| ==> TestBit(val, i) == (i >= remaining && bits[|bits| - 1 - i])
  }

  lemma GatheredNone(bits: seq<bool>)
    ensures Gathered(bits, 0, |bits|)
  {
    forall i: nat | i < |bits| ensures !TestBit(0, i) {
      ZeroBits(i);
    }
  }

  lemma GatheredAll(bits: seq<bool>, val: nat)
    requires Gathered(bits, val, 0)
    ensures val == NatOf(bits)
  {
    NatOfBound(bits);
    forall i: nat | i < |bits| ensures TestBit(val, i) == TestBit(NatOf(bits), i) {
      NatBitsNatOf(bits);
      assert NatBits(NatOf(bits), |bits|)[|bits| - 1 - i] == TestBit(NatOf(bits), i);
    }
    Extensional(val, NatOf(bits), |bits|);
  }

  /** Unless it was the last one, a round fills its byte. */
  lemma NextByte(pos: nat, remaining: nat, place: nat)
    requires place == if remaining <= 8 - pos % 8 then remaining else 8 - pos % 8
    ensures remaining - place > 0 ==> (pos + place) / 8 == pos / 8 + 1
  {
  }

  lemma BitInByte(buf: seq<byte>, pos: nat, j: nat)
    requires pos <= j < pos - pos % 8 + 8 && j < 8 * |buf|
    ensures BitsOf(buf)[j] == TestBit(buf[pos / 8], 7 - pos % 8 - (j - pos))
  {
    BitsOfAt(buf, j);
    assert j / 8 == pos / 8 && j % 8 == pos % 8 + (j - pos);
  }

  /** One round of unpacking: `place` bits from bit `pos` of the buffer. */
  lemma UnpackRound(buf: seq<byte>, off: nat, size: nat, val: nat, remaining: nat, place: nat)
    requires off + size <= 8 * |buf|
    requires Gathered(BitsOf(buf)[off..off + size], val, remaining) && 1 <= place <= remaining
    requires var pos := off + size - remaining; place <= 8 - pos % 8
    ensures var pos := off + size - remaining;
            var x := Extract(buf[pos / 8], 8 - pos % 8 - place, place);
            Gathered(BitsOf(buf)[off..off + size], Or(val, Shl(x, remaining - place)), remaining - place)
  {
    hide BitsOf, TestBit, Pow2, Shl, Or, Extract;
    var bits := BitsOf(buf)[off..off + size];
    var pos, rest := off + size - remaining, remaining - place;
    var k, r := pos / 8, pos % 8;
    var shift := 8 - r - place;
    var x := Extract(buf[k], shift, place);
    ExtractBound(buf[k], shift, place);
    ShlBound(x, rest, place);
    Pow2Mono(rest + place, size);
    OrBound(val, Shl(x, rest), size);
    forall i: nat | i < size
      ensures TestBit(Or(val, Shl(x, rest)), i) == (i >= rest && bits[size - 1 - i])
    {
      TestBitOr(val, Shl(x, rest), i);
      TestBitShl(x, rest, i);
      if i >= rest {
        ExtractBit(buf[k], shift, place, i - rest);
        if i < remaining {
          BitInByte(buf, pos, off + size - 1 - i);
        }
      }
    }
  }
}
