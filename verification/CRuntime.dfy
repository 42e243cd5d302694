/**
  The C runtime under the generated code: loads and stores of numbers, bit
  fields and slices through a moving pointer. Memory is one byte array and a
  pointer is an index into it; the C code does not check bounds, so being inside
  the array is the caller's duty. Copies are modelled as `memmove`.
 */
module CRuntime {
  import opened BitOps
  import opened BitString
  import opened BitFields
  import opened Memory
  import opened Results
  import opened Wire
  import opened Types
  import opened Interop
  import opened ByteLevel

  // ---------------------------------------------------------------- Numbers

  lemma {:induction false} ShrShr(x: int, a: nat, b: nat)
    ensures Shr(Shr(x, a), b) == Shr(x, a + b)
    decreases a
  {
    if a > 0 {
      ShrShr(x / 2, a - 1, b);
    }
  }

  lemma {:induction false} BigEndianAt(x: int, w: nat, i: nat)
    requires i < w
    ensures BigEndian(x, w)[i] == Extract(x, 8 * (w - 1 - i), 8)
    decreases w
  {
    hide Shr, And, Mask, Pow2;
    if i < w - 1 {
      BigEndianAt(Shr(x, 8), w - 1, i);
      ShrShr(x, 8, 8 * (w - 2 - i));
      assert BigEndian(x, w)[i] == BigEndian(Shr(x, 8), w - 1)[i];
      assert 8 + 8 * (w - 2 - i) == 8 * (w - 1 - i);
    }
  }

  /** `(uint8_t)(x >> 8*(w-1-i))` */
  function ByteAt(x: int, w: nat, i: nat): (r: byte)
    requires i < w
    ensures r == BigEndian(x, w)[i]
  {
    BigEndianAt(x, w, i);
    Extract(x, 8 * (w - 1 - i), 8)
  }

  /** `compost_u8_store` to `compost_u64_store`. */
  method StoreNat(mem: array<byte>, dest: nat, src: nat, w: width) returns (dest': nat)
    requires dest + w <= mem.Length
    modifies mem
    ensures dest' == dest + w && mem[..] == Stored(old(mem[..]), dest, BigEndian(src, w))
    ensures BitsOf(mem[..]) == Splice(old(BitsOf(mem[..])), 8 * dest, NatBits(src, 8 * w))
  {
    hide BigEndian, Extract, BitsOf, NatBits;
    StoredBits(mem[..], dest, BigEndian(src, w));
    BigEndianBits(src, w);
    forall i | 0 <= i < w {
      mem[dest + i] := ByteAt(src, w, i);
    }
    dest' := dest + w;
    assert mem[..] == Stored(old(mem[..]), dest, BigEndian(src, w));
  }

  /** `(b0 << 8*(n-1)) | (b1 << 8*(n-2)) | ...` over the given bytes. */
  function OrBytes(bytes: seq<byte>, n: nat): nat
    requires 1 <= |bytes| <= n
    decreases |bytes|
  {
    var m := |bytes| - 1;
    var top := Shl(bytes[m], 8 * (n - 1 - m));
    if m == 0 then top else Or(OrBytes(bytes[..m], n), top)
  }

  lemma ShiftedByte(b: byte, s: nat, i: nat)
    ensures TestBit(Shl(b, s), i) == (s <= i < s + 8 && TestBit(b, i - s))
    ensures 0 <= Shl(b, s) < Pow2(s + 8)
  {
    assert Pow2(8) == 256;
    ShlBound(b, s, 8);
    TestBitShl(b, s, i);
    if i >= s + 8 {
      HighBits(b, 8, i - s);
    }
  }

  lemma {:induction false} OrBytesBit(bytes: seq<byte>, n: nat, i: nat)
    requires 1 <= |bytes| <= n && i < 8 * n
    ensures OrBytes(bytes, n) < Pow2(8 * n)
    ensures TestBit(OrBytes(bytes, n), i) ==
            (i >= 8 * (n - |bytes|) && BitsOf(bytes)[8 * n - 1 - i])
    decreases |bytes|
  {
    hide BitsOf, TestBit, Pow2, Shl, Or;
    var m := |bytes| - 1;
    var s := 8 * (n - 1 - m);
    ShiftedByte(bytes[m], s, i);
    Pow2Mono(s + 8, 8 * n);
    if s <= i {
      BitsOfAt(bytes, 8 * n - 1 - i);
    }
    if m > 0 {
      OrBytesBit(bytes[..m], n, i);
      TestBitOr(OrBytes(bytes[..m], n), Shl(bytes[m], s), i);
      OrBound(OrBytes(bytes[..m], n), Shl(bytes[m], s), 8 * n);
      if s + 8 <= i {
        BitsOfAt(bytes[..m], 8 * n - 1 - i);
      }
    }
  }

  /** Or-ing the shifted bytes gives the big-endian number. */
  lemma OrBytesIsBigEndian(bytes: seq<byte>)
    requires bytes != []
    ensures OrBytes(bytes, |bytes|) == FromBigEndian(bytes)
  {
    var n := |bytes|;
    forall i: nat | i < 8 * n ensures TestBit(OrBytes(bytes, n), i) == BitsOf(bytes)[8 * n - 1 - i] {
      OrBytesBit(bytes, n, i);
    }
    OrBytesBit(bytes, n, 0);
    GatheredAll(BitsOf(bytes), OrBytes(bytes, n));
  }

  /** `compost_u8_load` to `compost_u64_load`. */
  method LoadNat(mem: array<byte>, src: nat, w: width) returns (val: nat, src': nat)
    requires src + w <= mem.Length
    ensures src' == src + w && val == FromBigEndian(mem[src..src + w])
  {
    val := OrBytes(mem[src..src + w], w);
    OrBytesIsBigEndian(mem[src..src + w]);
    src' := src + w;
  }

  // ---------------------------------------------------------------- Bit fields

  /** `compost_bituint_store` */
  method BitsStore(mem: array<byte>, dest: nat, value: nat, offset: nat, size: nat)
    requires 8 * dest + offset + size <= 8 * mem.Length
    modifies mem
    ensures BitsOf(mem[..]) == Splice(old(BitsOf(mem[..])), 8 * dest + offset, NatBits(value, size))
  {
    hide BitsOf, NatBits, Placed, Extract, Insert;
    ghost var before, at := BitsOf(mem[..]), 8 * dest + offset;
    var byteIndex := offset / 8;
    var bitsRemaining: nat := size;
    var bitPosition := offset;
    PlacedNone(mem[..], at, size, value);
    while bitsRemaining > 0
      invariant bitsRemaining <= size && bitPosition == offset + (size - bitsRemaining)
      invariant bitsRemaining > 0 ==> byteIndex == bitPosition / 8
      invariant Placed(before, mem[..], at, size, value, bitsRemaining)
    {
      var bitsToFill := 8 - bitPosition % 8;
      var bitsToPlace := if bitsRemaining <= bitsToFill then bitsRemaining else bitsToFill;
      var shift := bitsToFill - bitsToPlace;
      var bitValue := Extract(value, bitsRemaining - bitsToPlace, bitsToPlace);
      ghost var pos := 8 * dest + bitPosition;
      assert pos / 8 == dest + byteIndex && pos % 8 == bitPosition % 8;
      PlacedRound(before, mem[..], at, size, value, bitsRemaining, bitsToPlace);
      PackedByte(mem[dest + byteIndex], value, bitsRemaining - bitsToPlace, bitsToPlace, bitPosition % 8);
      ghost var was := mem[..];
      mem[dest + byteIndex] := Insert(mem[dest + byteIndex], bitValue, bitsToPlace, shift);
      assert mem[..] ==
             was[dest + byteIndex := RoundByte(was[dest + byteIndex], value, pos, bitsRemaining, bitsToPlace)];
      bitPosition := bitPosition + bitsToPlace;
      byteIndex := byteIndex + 1;
      bitsRemaining := bitsRemaining - bitsToPlace;
    }
    PlacedAll(before, mem[..], at, size, value);
  }

  /** A round of unpacking through a pointer. */
  lemma LoadRound(mem: seq<byte>, src: nat, offset: nat, size: nat, val: nat, remaining: nat, place: nat, index: nat,
                  shift: nat)
    requires index == (offset + (size - remaining)) / 8 && shift == 8 - (offset + (size - remaining)) % 8 - place
    requires 8 * src + offset + size <= 8 * |mem| && 1 <= place <= remaining
    requires Gathered(BitsOf(mem)[8 * src + offset..8 * src + offset + size], val, remaining)
    ensures && src + index < |mem|
            && var x := Extract(mem[src + index], shift, place);
               Gathered(BitsOf(mem)[8 * src + offset..8 * src + offset + size],
                        Or(val, Shl(x, remaining - place)), remaining - place)
  {
    hide BitsOf, Extract, Or, Shl;
    var pos := offset + (size - remaining);
    assert (8 * src + pos) / 8 == src + pos / 8 && (8 * src + pos) % 8 == pos % 8;
    UnpackRound(mem, 8 * src + offset, size, val, remaining, place);
  }

  /** `compost_bituint_load` */
  method BitsLoad(mem: array<byte>, src: nat, offset: nat, size: nat) returns (val: nat)
    requires size > 0 ==> 8 * src + offset + size <= 8 * mem.Length
    ensures val == if size == 0 then 0 else NatOf(BitsOf(mem[..])[8 * src + offset..8 * src + offset + size])
  {
    if size == 0 {
      return 0;
    }
    hide BitsOf, NatOf, Gathered, TestBit, Shl, Or, Extract, Pow2;
    ghost var bytes := mem[..];
    ghost var bits := BitsOf(bytes)[8 * src + offset..8 * src + offset + size];
    val := 0;
    var byteIndex := offset / 8;
    var bitsRemaining: nat := size;
    var bitPosition := offset;
    GatheredNone(bits);
    while bitsRemaining > 0
      invariant bitsRemaining <= size && bitPosition == offset + (size - bitsRemaining)
      invariant bitsRemaining > 0 ==> byteIndex == bitPosition / 8
      invariant Gathered(bits, val, bitsRemaining)
      decreases bitsRemaining
    {
      var bitsToFill: nat := 8 - bitPosition % 8;
      var bitsToPlace: nat := if bitsRemaining <= bitsToFill then bitsRemaining else bitsToFill;
      var shift: nat := bitsToFill - bitsToPlace;
      LoadRound(bytes, src, offset, size, val, bitsRemaining, bitsToPlace, byteIndex, shift);
      NextByte(bitPosition, bitsRemaining, bitsToPlace);
      assert mem[src + byteIndex] == bytes[src + byteIndex];
      var bitValue := Extract(mem[src + byteIndex], shift, bitsToPlace);
      bitPosition := bitPosition + bitsToPlace;
      byteIndex := byteIndex + 1;
      bitsRemaining := bitsRemaining - bitsToPlace;
      val := Or(val, Shl(bitValue, bitsRemaining));
    }
    GatheredAll(bits, val);
  }

  // ---------------------------------------------------------------- Slices

  /** The bytes that `len` elements take. */
  function Extent(k: Num, len: nat): nat {
    len * Width(k)
  }

  /** Length in bytes of a slice of `len` elements as the C code computes it, in 16 bits. */
  function Span(k: Num, len: nat): (n: nat)
    ensures n < 65536
  {
    Extent(k, len) % 65536
  }

  /** The values that wire bytes hold, as elements of kind `k`. */
  function Contents(bytes: seq<byte>, k: Num): (xs: seq<int>)
    ensures AllInRange(k, xs) && Patterns(k, xs) == ReadItems(Width(k), BitsOf(bytes))
  {
    ReadItemsBelow(Width(k), BitsOf(bytes));
    Values(k, ReadItems(Width(k), BitsOf(bytes)))
  }

  lemma {:induction false} ItemsOfReadItems(w: width, b: seq<bool>, n: nat)
    requires |b| == 8 * n && Whole(n, w)
    ensures Items(w, ReadItems(w, b)) == b
    decreases n
  {
    hide NatOf, NatBits, Whole;
    if n > 0 {
      WholeStep(n, w);
      var m := 8 * w;
      NatBitsNatOf(b[..m]);
      ItemsOfReadItems(w, b[m..], n - w);
      var r := ReadItems(w, b);
      assert r == [NatOf(b[..m])] + ReadItems(w, b[m..]);
      assert r[1..] == ReadItems(w, b[m..]);
      assert b == b[..m] + b[m..];
    } else {
      assert b == [];
    }
  }

  /** A list is its length and then its bytes. */
  lemma ContentsImage(bytes: seq<byte>, k: Num)
    requires Whole(|bytes|, Width(k))
    ensures ListImage(k, Contents(bytes, k)) == NatBits(|bytes|, 16) + BitsOf(bytes)
    ensures |bytes| < 65536 ==> ListConforms(k, VList(Contents(bytes, k)))
  {
    hide BitsOf, Patterns, Contents, NatBits, ReadItems, Items, InRange, Whole, AllInRange;
    ItemsOfReadItems(Width(k), BitsOf(bytes), |bytes|);
  }

  lemma SpanWhole(k: Num, len: nat)
    ensures Span(k, len) % Width(k) == 0 && Whole(Span(k, len), Width(k))
  {
    SpanMultiple(k, len);
    WholeElements(Span(k, len), Width(k));
  }

  lemma SpanMultiple(k: Num, len: nat)
    ensures Span(k, len) % Width(k) == 0
  {
    var w := Width(k);
    if w == 2 {
      CutMultiple2(len);
    } else if w == 4 {
      CutMultiple4(len);
    } else if w == 8 {
      CutMultiple8(len);
    }
  }

  lemma CutMultiple2(n: nat)
    ensures n * 2 % 65536 % 2 == 0
  {
    assert n * 2 % 65536 == 2 * (n - 32768 * (n * 2 / 65536));
  }

  lemma CutMultiple4(n: nat)
    ensures n * 4 % 65536 % 4 == 0
  {
    assert n * 4 % 65536 == 4 * (n - 16384 * (n * 4 / 65536));
  }

  lemma CutMultiple8(n: nat)
    ensures n * 8 % 65536 % 8 == 0
  {
    assert n * 8 % 65536 == 8 * (n - 8192 * (n * 8 / 65536));
  }

  lemma {:induction false} ElementsRead(w: width, b: seq<bool>, count: nat)
    requires |b| == count * (8 * w)
    ensures |ReadItems(w, b)| == count
    decreases count
  {
    hide NatOf;
    if count > 0 {
      assert |b| == (count - 1) * (8 * w) + 8 * w;
      ElementsRead(w, b[8 * w..], count - 1);
    }
  }

  /** How many elements so many bytes hold. */
  lemma CountOfBytes(bytes: seq<byte>, k: Num, count: nat)
    requires |bytes| == Extent(k, count)
    ensures |Contents(bytes, k)| == count
  {
    hide BitsOf, ReadItems;
    assert 8 * |bytes| == count * (8 * Width(k));
    ElementsRead(Width(k), BitsOf(bytes), count);
  }

  /** The `n` bytes at `ptr`; a slice without elements may have any pointer. */
  function Block(mem: seq<byte>, ptr: nat, n: nat): (r: seq<byte>)
    requires n > 0 ==> ptr + n <= |mem|
    ensures |r| == n
  {
    if n == 0 then [] else mem[ptr..ptr + n]
  }

  /**
    What a slice store of `n` bytes at `ptr` copies behind the length at `dest`.
    It compares `ptr` with the place of the length, not of the data: a slice that
    begins there is not moved, and the bytes behind the length stay as they are.
   */
  function Moved(mem: seq<byte>, dest: nat, ptr: nat, n: nat): (r: seq<byte>)
    requires (n > 0 ==> ptr + n <= |mem|) && dest + 2 + n <= |mem|
    ensures |r| == n
  {
    if ptr == dest then mem[dest + 2..dest + 2 + n] else Block(mem, ptr, n)
  }

  /** `compost_slice_*_store`, wherever the source lies. */
  method SliceStore(mem: array<byte>, dest: nat, k: Num, ptr: nat, len: nat) returns (dest': nat)
    requires dest + 2 + Span(k, len) <= mem.Length
    requires Span(k, len) > 0 ==> ptr + Span(k, len) <= mem.Length
    modifies mem
    ensures dest' == dest + 2 + Span(k, len)
    ensures BitsOf(mem[..]) ==
            Splice(old(BitsOf(mem[..])), 8 * dest,
                   NatBits(Span(k, len), 16) + BitsOf(Moved(old(mem[..]), dest, ptr, Span(k, len))))
  {
    hide *;
    dest' := BlockStore(mem, dest, ptr, Span(k, len));
  }

  method BlockStore(mem: array<byte>, dest: nat, ptr: nat, n: nat) returns (dest': nat)
    requires n < 65536 && dest + 2 + n <= mem.Length
    requires n > 0 ==> ptr + n <= mem.Length
    modifies mem
    ensures dest' == dest + 2 + n
    ensures BitsOf(mem[..]) ==
            Splice(old(BitsOf(mem[..])), 8 * dest, NatBits(n, 16) + BitsOf(Moved(old(mem[..]), dest, ptr, n)))
  {
    hide BitsOf, NatBits, BigEndian, Stored;
    ghost var before, data := BitsOf(mem[..]), Moved(mem[..], dest, ptr, n);
    if ptr != dest {
      Store(mem, dest + 2, Block(mem[..], ptr, n));
    } else {
      NothingToCopy(mem[..], dest + 2, n);
    }
    ghost var mid := BitsOf(mem[..]);
    dest' := StoreNat(mem, dest, n, 2);
    dest' := dest' + n;
    PrefixAfterData(before, mid, BitsOf(mem[..]), dest, NatBits(n, 16), BitsOf(data));
  }

  lemma NothingToCopy(mem: seq<byte>, at: nat, n: nat)
    requires at + n <= |mem|
    ensures BitsOf(mem) == Splice(BitsOf(mem), 8 * at, BitsOf(mem[at..at + n]))
  {
    hide BitsOf;
    BitsOfSlice(mem, at, at + n);
  }

  lemma PrefixAfterData(b: seq<bool>, mid: seq<bool>, out: seq<bool>, dest: nat, f: seq<bool>, g: seq<bool>)
    requires |f| == 16 && 8 * dest + 16 + |g| <= |b|
    requires mid == Splice(b, 8 * (dest + 2), g) && out == Splice(mid, 8 * dest, f)
    ensures out == Splice(b, 8 * dest, f + g)
  {
  }

  /** Bytes are determined by the elements they hold. */
  lemma ContentsInjective(a: seq<byte>, b: seq<byte>, k: Num)
    requires |a| == |b| && Whole(|a|, Width(k)) && Contents(a, k) == Contents(b, k)
    ensures a == b
  {
    hide BitsOf, ReadItems, Items, Contents, Patterns;
    ItemsOfReadItems(Width(k), BitsOf(a), |a|);
    ItemsOfReadItems(Width(k), BitsOf(b), |b|);
    BitsOfInjective(a, b);
  }

  /**
    A slice store puts the slice's own list into the message if and only if the
    slice is empty, does not begin where its length goes, or happens to repeat
    itself two bytes further on.
   */
  lemma StoredListIff(mem: seq<byte>, dest: nat, k: Num, ptr: nat, len: nat)
    requires var n := Span(k, len); (n > 0 ==> ptr + n <= |mem|) && dest + 2 + n <= |mem|
    ensures var n := Span(k, len);
            Contents(Moved(mem, dest, ptr, n), k) == Contents(Block(mem, ptr, n), k) <==>
            n == 0 || ptr != dest || mem[dest..dest + n] == mem[dest + 2..dest + 2 + n]
  {
    hide Contents, Span;
    var n := Span(k, len);
    if Contents(Moved(mem, dest, ptr, n), k) == Contents(Block(mem, ptr, n), k) {
      SpanWhole(k, len);
      ContentsInjective(Moved(mem, dest, ptr, n), Block(mem, ptr, n), k);
    }
  }

  /** A memory in which a slice that begins where its length goes is stored wrongly, whatever its type and length. */
  lemma SliceAtItsLength(dest: nat, k: Num, len: nat) returns (mem: seq<byte>)
    requires Span(k, len) > 0
    ensures dest + 2 + Span(k, len) <= |mem|
    ensures Contents(Moved(mem, dest, dest, Span(k, len)), k) != Contents(Block(mem, dest, Span(k, len)), k)
  {
    hide Contents;
    var n := Span(k, len);
    mem := seq(dest + 2 + n, _ => 0)[dest := 1];
    assert mem[dest..dest + n][0] != mem[dest + 2..dest + 2 + n][0];
    StoredListIff(mem, dest, k, dest, len);
  }
}
