/** Multi-byte numbers and block copies on byte arrays. */
module Memory {
  import opened BitOps
  import opened BitString
  import opened BitFields

  /** The `w` low bytes of `x`, most significant first: byte `i` is `(uint8_t)(x >> 8*(w-1-i))`. */
  function BigEndian(x: int, w: nat): (r: seq<byte>)
    ensures |r| == w
    decreases w
  {
    if w == 0 then []
    else
      ExtractBound(x, 0, 8);
      assert Pow2(8) == 256;
      BigEndian(Shr(x, 8), w - 1) + [Extract(x, 0, 8)]
  }

  lemma NatBitsSplit(x: int, a: nat, b: nat)
    ensures NatBits(x, a + b) == NatBits(Shr(x, b), a) + NatBits(x, b)
  {
    var l, r := NatBits(x, a + b), NatBits(Shr(x, b), a) + NatBits(x, b);
    forall i | 0 <= i < a + b ensures l[i] == r[i] {
      if i < a {
        TestBitShr(x, b, a - 1 - i);
      }
    }
  }

  lemma LowBits(x: int, n: nat)
    ensures NatBits(Extract(x, 0, n), n) == NatBits(x, n)
  {
    var l, r := NatBits(Extract(x, 0, n), n), NatBits(x, n);
    forall i | 0 <= i < n ensures l[i] == r[i] {
      ExtractBit(x, 0, n, n - 1 - i);
    }
  }

  /** Big-endian bytes are the number's bits in order. */
  lemma {:induction false} BigEndianBits(x: int, w: nat)
    ensures BitsOf(BigEndian(x, w)) == NatBits(x, 8 * w)
    decreases w
  {
    if w > 0 {
      BigEndianBits(Shr(x, 8), w - 1);
      NatBitsSplit(x, 8 * (w - 1), 8);
      LowBits(x, 8);
      BitsOfAppend(BigEndian(Shr(x, 8), w - 1), [Extract(x, 0, 8)]);
      BitsOfByte(Extract(x, 0, 8));
    }
  }

  /** The number in a big-endian byte string. */
  function FromBigEndian(bytes: seq<byte>): (x: nat)
    ensures x < Pow2(8 * |bytes|)
  {
    NatOfBound(BitsOf(bytes));
    NatOf(BitsOf(bytes))
  }

  /** `buf` with `bytes` stored from index `at` on. */
  function Stored(buf: seq<byte>, at: nat, bytes: seq<byte>): (r: seq<byte>)
    requires at + |bytes| <= |buf|
    ensures |r| == |buf|
  {
    buf[..at] + bytes + buf[at + |bytes|..]
  }

  lemma StoredBits(buf: seq<byte>, at: nat, bytes: seq<byte>)
    requires at + |bytes| <= |buf|
    ensures BitsOf(Stored(buf, at, bytes)) == Splice(BitsOf(buf), 8 * at, BitsOf(bytes))
  {
    var a, m, z := buf[..at], buf[at..at + |bytes|], buf[at + |bytes|..];
    BitsOfAppend(a, bytes);
    BitsOfAppend(a + bytes, z);
    assert buf == a + m + z;
    BitsOfAppend(a, m);
    BitsOfAppend(a + m, z);
    SpliceMiddle(BitsOf(a), BitsOf(m), BitsOf(z), BitsOf(bytes));
  }

  lemma SpliceMiddle(a: seq<bool>, m: seq<bool>, z: seq<bool>, f: seq<bool>)
    requires |f| == |m|
    ensures Splice(a + m + z, |a|, f) == a + f + z
  {
  }

  /** Block store, as a slice assignment or a `memmove` from elsewhere. */
  method Store(mem: array<byte>, at: nat, bytes: seq<byte>)
    requires at + |bytes| <= mem.Length
    modifies mem
    ensures mem[..] == Stored(old(mem[..]), at, bytes)
    ensures BitsOf(mem[..]) == Splice(old(BitsOf(mem[..])), 8 * at, BitsOf(bytes))
  {
    StoredBits(mem[..], at, bytes);
    forall i | 0 <= i < |bytes| {
      mem[at + i] := bytes[i];
    }
    assert mem[..] == Stored(old(mem[..]), at, bytes);
  }
}
