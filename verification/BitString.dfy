/**
  Byte buffers as most-significant-bit-first bit strings. This is the common
  meaning that every load and store of the protocol is specified against.
 */
module BitString {
  import opened BitOps

  type byte = x: nat | x < 256

  /** The low `n` bits of `x`, most significant first. */
  function NatBits(x: int, n: nat): (r: seq<bool>)
    ensures |r| == n
    ensures forall i :: 0 <= i < n ==> r[i] == TestBit(x, n - 1 - i)
  {
    seq(n, i requires 0 <= i < n => TestBit(x, n - 1 - i))
  }

  /** The number written by a bit string, most significant bit first. */
  function NatOf(bits: seq<bool>): nat {
    if |bits| == 0 then 0
    else 2 * NatOf(bits[..|bits| - 1]) + (if bits[|bits| - 1] then 1 else 0)
  }

  /** The bit string of a byte buffer: bit `i` lies in byte `i / 8`, most significant bit first. */
  function BitsOf(buf: seq<byte>): (r: seq<bool>)
    ensures |r| == 8 * |buf|
  {
    seq(8 * |buf|, i requires 0 <= i < 8 * |buf| => TestBit(buf[i / 8], 7 - i % 8))
  }

  function Falses(n: nat): (b: seq<bool>)
    ensures |b| == n
  {
    seq(n, _ => false)
  }

  /** `b` with the bits from `off` on replaced by `f`. */
  function Splice(b: seq<bool>, off: nat, f: seq<bool>): (r: seq<bool>)
    requires off + |f| <= |b|
    ensures |r| == |b|
    ensures forall i :: 0 <= i < |b| ==> r[i] == if off <= i < off + |f| then f[i - off] else b[i]
  {
    b[..off] + f + b[off + |f|..]
  }

  lemma NatOfBound(bits: seq<bool>)
    ensures NatOf(bits) < Pow2(|bits|)
  {
  }

  lemma NatBitsHalf(x: int, n: nat)
    requires n > 0
    ensures NatBits(x, n) == NatBits(x / 2, n - 1) + [x % 2 == 1]
  {
    var l, r := NatBits(x, n), NatBits(x / 2, n - 1) + [x % 2 == 1];
    forall i | 0 <= i < n ensures l[i] == r[i] {
      if i == n - 1 {
        assert TestBit(x, 0) == (x % 2 == 1);
      } else {
        assert TestBit(x, n - 1 - i) == TestBit(x / 2, n - 2 - i);
      }
    }
  }

  /** Writing a number that fits and reading it back. */
  lemma {:induction false} NatOfNatBits(x: nat, n: nat)
    requires x < Pow2(n)
    ensures NatOf(NatBits(x, n)) == x
  {
    if n > 0 {
      NatBitsHalf(x, n);
      assert NatBits(x, n)[..n - 1] == NatBits(x / 2, n - 1);
      NatOfNatBits(x / 2, n - 1);
    }
  }

  lemma {:induction false} NatBitsNatOf(bits: seq<bool>)
    ensures NatBits(NatOf(bits), |bits|) == bits
  {
    var n := |bits|;
    if n > 0 {
      NatBitsNatOf(bits[..n - 1]);
      NatBitsHalf(NatOf(bits), n);
      assert bits == bits[..n - 1] + [bits[n - 1]];
    }
  }

  lemma BitsOfAt(buf: seq<byte>, i: nat)
    requires i < 8 * |buf|
    ensures BitsOf(buf)[i] == TestBit(buf[i / 8], 7 - i % 8)
  {
  }

  lemma BitsOfSlice(buf: seq<byte>, lo: nat, hi: nat)
    requires lo <= hi <= |buf|
    ensures BitsOf(buf[lo..hi]) == BitsOf(buf)[8 * lo..8 * hi]
  {
    hide BitsOf, TestBit;
    forall i | 0 <= i < 8 * (hi - lo) ensures BitsOf(buf[lo..hi])[i] == BitsOf(buf)[8 * lo + i] {
      BitsOfAt(buf[lo..hi], i);
      BitsOfAt(buf, 8 * lo + i);
      assert (8 * lo + i) / 8 == lo + i / 8 && (8 * lo + i) % 8 == i % 8;
    }
  }

  lemma BitsOfAppend(a: seq<byte>, b: seq<byte>)
    ensures BitsOf(a + b) == BitsOf(a) + BitsOf(b)
  {
    var n, s := |a|, a + b;
    assert s[0..n] == a && s[n..|s|] == b;
    BitsOfSlice(s, 0, n);
    BitsOfSlice(s, n, |s|);
    Halves(BitsOf(s), 8 * n);
  }

  lemma Halves(b: seq<bool>, n: nat)
    requires n <= |b|
    ensures b[0..n] + b[n..|b|] == b
  {
  }

  lemma BitsOfByte(x: byte)
    ensures BitsOf([x]) == NatBits(x, 8)
  {
    forall i | 0 <= i < 8 ensures BitsOf([x])[i] == NatBits(x, 8)[i] {
      BitsOfAt([x], i);
    }
  }

  /** Every bit string of whole bytes is the bit string of a byte buffer. */
  function BytesOf(bits: seq<bool>): (r: seq<byte>)
    requires |bits| % 8 == 0
    ensures BitsOf(r) == bits
    decreases |bits|
  {
    if bits == [] then []
    else
      var h, z := bits[..8], BytesOf(bits[8..]);
      NatOfBound(h);
      assert Pow2(8) == 256;
      NatBitsNatOf(h);
      BitsOfAppend([NatOf(h)], z);
      BitsOfByte(NatOf(h));
      [NatOf(h)] + z
  }

  lemma BytesOfBits(s: seq<byte>)
    ensures BytesOf(BitsOf(s)) == s
  {
    BitsOfInjective(BytesOf(BitsOf(s)), s);
  }

  /** The bit string is faithful: it determines the bytes. */
  lemma BitsOfInjective(a: seq<byte>, b: seq<byte>)
    requires BitsOf(a) == BitsOf(b)
    ensures a == b
  {
    assert |a| == |b|;
    forall k | 0 <= k < |a| ensures a[k] == b[k] {
      forall i: nat | i < 8 ensures TestBit(a[k], i) == TestBit(b[k], i) {
        var j := 8 * k + (7 - i);
        assert j / 8 == k && j % 8 == 7 - i;
        BitsOfAt(a, j);
        BitsOfAt(b, j);
      }
      assert Pow2(8) == 256;
      Extensional(a[k], b[k], 8);
    }
  }
}
