/** The four-byte message header and the message around it, as each implementation writes and reads them. */
module Framing {
  import opened BitOps
  import opened BitString
  import opened Results
  import BitFields
  import Memory

  /** `len` counts 32-bit words of payload. */
  datatype Header = Header(len: nat, txn: nat, resp: bool, rpcId: nat)

  predicate WellFormed(h: Header) {
    h.len < 256 && h.txn < 256 && h.rpcId < 4096
  }

  /** The format: length, transaction number, flags and high bits of the id, low bits of the id. */
  function Encode(h: Header): (r: seq<byte>)
    requires WellFormed(h)
    ensures |r| == 4
  {
    [h.len, h.txn, h.rpcId / 256 + (if h.resp then 16 else 0), h.rpcId % 256]
  }

  function Decode(b: seq<byte>): (h: Header)
    requires |b| >= 4
    ensures WellFormed(h)
  {
    var hi: nat, lo: nat := b[2], b[3];
    Header(b[0], b[1], hi / 16 % 2 == 1, hi % 16 * 256 + lo)
  }

  /** `MessageHeader.IsErrorResponse` */
  predicate IsErrorResponse(h: Header) {
    h.resp && h.rpcId == 0xFEE
  }

  /** `MessageHeader.IsUnsupportedResponse` */
  predicate IsUnsupportedResponse(h: Header) {
    h.resp && h.rpcId == 0xFEF
  }

  lemma HeaderRoundTrip(h: Header)
    requires WellFormed(h)
    ensures Decode(Encode(h)) == h && Encode(h)[2] < 32
  {
  }

  /**
    The header bit by bit: the length in words, the transaction number, three
    reserved bits, the response flag, and the id in 12 bits.
   */
  lemma HeaderBits(h: Header)
    requires WellFormed(h)
    ensures BitsOf(Encode(h)) ==
            NatBits(h.len, 8) + NatBits(h.txn, 8) + [false, false, false, h.resp] + NatBits(h.rpcId, 12)
  {
    hide BitsOf, NatBits;
    var hi, lo := h.rpcId / 256, h.rpcId % 256;
    var flags := hi + (if h.resp then 16 else 0);
    assert Encode(h) == [h.len] + [h.txn] + [flags] + [lo];
    BitsOfAppend([h.len] + [h.txn] + [flags], [lo]);
    BitsOfAppend([h.len] + [h.txn], [flags]);
    BitsOfAppend([h.len], [h.txn]);
    BitsOfByte(h.len);
    BitsOfByte(h.txn);
    BitsOfByte(flags);
    BitsOfByte(lo);
    FlagBits(hi, h.resp);
    IdBits(h.rpcId);
  }

  lemma FlagBits(hi: nat, resp: bool)
    requires hi < 16
    ensures NatBits(hi + (if resp then 16 else 0), 8) == [false, false, false, resp] + NatBits(hi, 4)
  {
    hide NatBits, And, Shr, Mask;
    var x := hi + (if resp then 16 else 0);
    Powers();
    LowNibble(x);
    Memory.NatBitsSplit(x, 4, 4);
    Memory.LowBits(x, 4);
    assert BitFields.Extract(x, 0, 4) == And(Shr(x, 0), 0xF) == And(x, 0xF) == hi by {
      ShiftNothing(x);
    }
    TopFour(if resp then 1 else 0);
  }

  lemma ShiftNothing(x: nat)
    ensures Shr(x, 0) == x
  {
  }

  lemma TopFour(x: nat)
    requires x < 2
    ensures NatBits(x, 4) == [false, false, false, x == 1]
  {
    ZeroBits(0);
    ZeroBits(1);
    ZeroBits(2);
  }

  lemma IdBits(id: nat)
    requires id < 4096
    ensures NatBits(id, 12) == NatBits(id / 256, 4) + NatBits(id % 256, 8)
  {
    hide NatBits;
    Powers();
    LowByte(id);
    Memory.NatBitsSplit(id, 4, 8);
    Memory.LowBits(id, 8);
    assert BitFields.Extract(id, 0, 8) == And(id, 0xFF);
  }

  // ---------------------------------------------------------------- Bit operators on header fields

  lemma {:induction false} ShrAnd(x: nat, n: nat)
    ensures x == Shr(x, n) * Pow2(n) + And(x, Mask(n)) && And(x, Mask(n)) < Pow2(n)
    decreases n
  {
    hide Mask;
    MaskStep(n);
    if n > 0 {
      ShrAnd(x / 2, n - 1);
      AndStep(x, Mask(n - 1), 1);
      DoubleDivision(x, Shr(x / 2, n - 1), Pow2(n - 1), And(x / 2, Mask(n - 1)));
    }
  }

  lemma MaskStep(n: nat)
    ensures Mask(n) == Pow2(n) - 1
    ensures n > 0 ==> Mask(n) == 2 * Mask(n - 1) + 1
  {
    ShlOne(n);
    if n > 0 {
      ShlOne(n - 1);
    }
  }

  lemma AndStep(x: nat, m: nat, b: nat)
    requires b < 2
    ensures And(x, 2 * m + b) == (if b == 1 then x % 2 else 0) + 2 * And(x / 2, m)
  {
  }

  lemma DoubleDivision(x: nat, s: int, p: nat, a: nat)
    requires x / 2 == s * p + a
    ensures x == s * (2 * p) + (x % 2 + 2 * a)
  {
    DoubleFactor(s, p);
  }

  lemma DoubleFactor(s: int, p: int)
    ensures s * (2 * p) == 2 * (s * p)
  {
  }

  lemma Powers()
    ensures Pow2(4) == 16 && Pow2(8) == 256 && Pow2(12) == 4096
    ensures Mask(4) == 0xF && Mask(8) == 0xFF && Mask(12) == 0xFFF
  {
    assert Pow2(4) == 16;
    Pow2Add(4, 4);
    Pow2Add(8, 4);
    ShlOne(4);
    ShlOne(8);
    ShlOne(12);
  }

  lemma LowNibble(x: nat)
    ensures And(x, 0xF) == x % 16 && Shr(x, 4) == x / 16
  {
    hide And, Shr, Mask, Pow2;
    Powers();
    ShrAnd(x, 4);
  }

  lemma LowByte(x: nat)
    ensures And(x, 0xFF) == x % 256 && Shr(x, 8) == x / 256
  {
    hide And, Shr, Mask, Pow2;
    Powers();
    ShrAnd(x, 8);
  }

  lemma LowTwelve(x: nat)
    ensures And(x, 0xFFF) == x % 4096
  {
    hide And, Shr, Mask, Pow2;
    Powers();
    ShrAnd(x, 12);
  }

  /** A mask above bit 4 looks at the upper part alone. */
  lemma AndAbove(x: nat, m: nat)
    ensures And(x, 16 * m) == 16 * And(x / 16, m)
  {
    hide And;
    var y := x / 2;
    var z := y / 2;
    var u := z / 2;
    AndEven(x, 8 * m);
    AndEven(y, 4 * m);
    AndEven(z, 2 * m);
    AndEven(u, m);
    assert u / 2 == x / 16;
  }

  lemma AndEven(x: nat, m: nat)
    ensures And(x, 2 * m) == 2 * And(x / 2, m)
  {
    if m > 0 {
      AndStep(x, m, 0);
    }
  }

  lemma OrAbove(x: nat, y: nat)
    requires x < 16
    ensures Or(x, 16 * y) == x + 16 * y
  {
    hide Or, Pow2;
    Powers();
    OrAligned(x, y, 4);
  }

  lemma {:induction false} OrZero(y: nat)
    ensures Or(0, y) == y
    decreases y
  {
    if y > 0 {
      OrZero(y / 2);
    }
  }

  // ---------------------------------------------------------------- Python

  /** `rpc_id & 0x0FFF`, with `| 0x1000` for a response. */
  function IdAndFlags(rpcId: nat, resp: bool): (w: nat)
    ensures w == rpcId % 4096 + (if resp then 4096 else 0)
  {
    LowTwelve(rpcId);
    TopBit(rpcId % 4096);
    if resp then Or(And(rpcId, 0xFFF), 0x1000) else And(rpcId, 0xFFF)
  }

  /** `Header.pack`: `None` when a field does not fit its byte. */
  function PythonPack(h: Header): Option<seq<byte>> {
    var w := IdAndFlags(h.rpcId, h.resp);
    if h.len > 255 || h.txn > 255 then None
    else Some([h.len, h.txn, w / 256, w % 256])
  }

  lemma TopBit(w: nat)
    requires w < 4096
    ensures Or(w, 0x1000) == w + 0x1000
  {
    hide Or, Pow2;
    Powers();
    OrAligned(w, 1, 12);
  }

  /** Or-ing a number into the zero bits below a multiple of 2^n adds it. */
  lemma {:induction false} OrAligned(x: nat, y: nat, n: nat)
    requires x < Pow2(n)
    ensures Or(x, y * Pow2(n)) == x + y * Pow2(n)
    decreases n
  {
    if n == 0 {
      OrZero(y);
    } else {
      DoubleFactor(y, Pow2(n - 1));
      OrAligned(x / 2, y, n - 1);
      OrStep(x, y * Pow2(n - 1));
    }
  }

  lemma OrStep(x: nat, z: nat)
    ensures Or(x, 2 * z) == x % 2 + 2 * Or(x / 2, z)
  {
  }

  /** `Header.unpack` */
  function PythonUnpack(b: seq<byte>): Header
    requires |b| == 4
  {
    var w: nat := 256 * (b[2] as nat) + b[3];
    Header(b[0], b[1], And(w, 0x1000) != 0, And(w, 0xFFF))
  }

  lemma PythonHeader(h: Header)
    ensures PythonPack(h).Some? <==> h.len < 256 && h.txn < 256
    ensures PythonPack(h).Some? ==> PythonPack(h).value == Encode(Cut(h))
  {
    hide IdAndFlags;
  }

  lemma PythonReads(b: seq<byte>)
    requires |b| == 4
    ensures PythonUnpack(b) == Decode(b)
  {
    hide And;
    var w: nat := 256 * (b[2] as nat) + b[3];
    LowTwelve(w);
    BitTwelve(w);
    SplitWord(b[2], b[3]);
  }

  lemma SplitWord(hi: nat, lo: nat)
    requires lo < 256
    ensures (256 * hi + lo) % 4096 == hi % 16 * 256 + lo && (256 * hi + lo) / 4096 % 2 == hi / 16 % 2
  {
    Divided(256 * hi + lo, hi / 16, 256 * (hi % 16) + lo);
  }

  lemma Divided(w: nat, q: nat, r: nat)
    requires w == 4096 * q + r && r < 4096
    ensures w / 4096 == q && w % 4096 == r
  {
  }

  lemma BitTwelve(w: nat)
    requires w < 65536
    ensures And(w, 0x1000) == 0x1000 * (w / 4096 % 2)
  {
    hide And;
    AndAbove(w, 0x100);
    AndAbove(w / 16, 0x10);
    AndAbove(w / 16 / 16, 1);
    LowBit(w / 16 / 16 / 16);
  }

  lemma LowBit(z: nat)
    ensures And(z, 1) == z % 2
  {
    assert And(z / 2, 0) == 0;
  }

  // ---------------------------------------------------------------- C

  /** `compost_header_load`: `None` is `COMPOST_EFLAGS`. */
  function CLoad(b: seq<byte>): Option<Header>
    requires |b| >= 4
  {
    var hi := And(b[2], 0x0F);
    var flags := And(b[2], 0xF0);
    if AndNot(flags, 0x10) != 0 then None
    else Some(Header(b[0], b[1], And(flags, 0x10) != 0, Or(Shl(hi, 8), b[3])))
  }

  /** C reads what the others read, and refuses exactly the reserved flags. */
  lemma CReads(b: seq<byte>)
    requires |b| >= 4
    ensures CLoad(b) == if b[2] >= 32 then None else Some(Decode(b))
  {
    hide And, AndNot, Or, Shl;
    var x: nat := b[2];
    LowNibble(x);
    AndAbove(x, 0xF);
    LowNibble(x / 16);
    AndAbove(16 * (x / 16), 1);
    LowBit(x / 16);
    ReservedFlags(x / 16);
    OrLow(x % 16, b[3]);
  }

  lemma {:induction false} ShlIsTimes(x: nat, n: nat)
    ensures Shl(x, n) == x * Pow2(n)
    decreases n
  {
    if n > 0 {
      ShlIsTimes(x, n - 1);
      DoubleFactor(x, Pow2(n - 1));
    }
  }

  lemma OrLow(x: nat, y: byte)
    ensures Or(Shl(x, 8), y) == 256 * x + y
  {
    hide Or, Shl, Pow2;
    Powers();
    ShlIsTimes(x, 8);
    OrAligned(y, x, 8);
    OrSwap(256 * x, y);
  }

  lemma {:induction false} OrSwap(x: nat, y: nat)
    ensures Or(x, y) == Or(y, x)
    decreases x + y
  {
    if x > 0 || y > 0 {
      OrSwap(x / 2, y / 2);
    }
  }

  lemma ReservedFlags(n: nat)
    requires n < 16
    ensures AndNot(16 * n, 0x10) != 0 <==> n >= 2
  {
    hide AndNot;
    AndNotStep(8 * n, 8, 0);
    AndNotStep(4 * n, 4, 0);
    AndNotStep(2 * n, 2, 0);
    AndNotStep(n, 1, 0);
    AndNotStep(n / 2, 0, n % 2);
    AndNotZero(n / 2);
  }

  lemma AndNotStep(x: nat, m: nat, b: nat)
    requires b < 2
    ensures AndNot(2 * x, 2 * m) == 2 * AndNot(x, m)
    ensures AndNot(2 * x + b, 1) == 2 * AndNot(x, 0)
  {
  }

  lemma {:induction false} AndNotZero(n: nat)
    ensures AndNot(n, 0) == n
    decreases n
  {
    if n > 0 {
      AndNotZero(n / 2);
    }
  }

  /** `compost_header_store`, with the buffer anywhere in memory. */
  method CStore(buf: array<byte>, at: nat, h: Header)
    requires at + 4 <= buf.Length && WellFormed(h)
    modifies buf
    ensures buf[..] == old(buf[..at]) + Encode(h) + old(buf[at + 4..])
  {
    hide And, Or, Shr;
    LowByte(h.rpcId);
    OrAbove(h.rpcId / 256, 1);
    buf[at] := h.len;
    buf[at + 1] := h.txn;
    buf[at + 2] := Shr(h.rpcId, 8);
    if h.resp {
      buf[at + 2] := Or(buf[at + 2], 0x10);
    }
    buf[at + 3] := And(h.rpcId, 0xFF);
  }

  // ---------------------------------------------------------------- C#

  /** `MessageHeader.Parse` */
  function CSharpParse(b: seq<byte>, at: nat): Header
    requires at + 4 <= |b|
  {
    Header(b[at], b[at + 1], And(Shr(b[at + 2], 4), 1) != 0, Or(Shl(And(b[at + 2], 0xF), 8), b[at + 3]))
  }

  lemma CSharpReads(b: seq<byte>, at: nat)
    requires at + 4 <= |b|
    ensures CSharpParse(b, at) == Decode(b[at..at + 4])
  {
    hide And, Or, Shl, Shr;
    var x: nat := b[at + 2];
    LowNibble(x);
    OrLow(x % 16, b[at + 3]);
    LowBit(x / 16);
  }

  lemma FlagsValue(rpcId: nat, resp: nat)
    ensures Or(And(Shr(rpcId, 8), 0x0F), 16 * resp) == rpcId / 256 % 16 + 16 * resp
  {
    hide And, Or, Shr;
    LowByte(rpcId);
    LowNibble(rpcId / 256);
    OrAbove(rpcId / 256 % 16, resp);
  }

  lemma CutId(rpcId: nat)
    ensures rpcId % 4096 / 256 == rpcId / 256 % 16 && rpcId % 4096 % 256 == rpcId % 256
  {
    SplitWord(rpcId / 256, rpcId % 256);
    assert rpcId == 256 * (rpcId / 256) + rpcId % 256;
  }

  /** The header with its id cut to 12 bits. */
  function Cut(h: Header): Header {
    h.(rpcId := h.rpcId % 4096)
  }

  /** `(byte)((RpcId >> 8) & 0x0F) | (byte)((Resp ? 1 : 0) << 4)` */
  function FlagsByte(rpcId: nat, resp: bool): (r: byte)
    ensures r == rpcId / 256 % 16 + (if resp then 16 else 0)
  {
    FlagsValue(rpcId, if resp then 1 else 0);
    Or(And(Shr(rpcId, 8), 0x0F), 16 * (if resp then 1 else 0))
  }

  /** `MessageHeader.Write`, which returns silently from a buffer that is too short. */
  method CSharpWrite(buf: array<byte>, h: Header)
    requires h.len < 256 && h.txn < 256
    modifies buf
    ensures buf[..] == if buf.Length < 4 then old(buf[..]) else Encode(Cut(h)) + old(buf[4..])
  {
    hide And, FlagsByte;
    if buf.Length < 4 {
      return;
    }
    LowByte(h.rpcId);
    CutId(h.rpcId);
    buf[0] := h.len;
    buf[1] := h.txn;
    buf[2] := FlagsByte(h.rpcId, h.resp);
    buf[3] := And(h.rpcId, 0xFF);
  }

  // ---------------------------------------------------------------- Messages

  function Words(bytes: nat): nat {
    (bytes + 3) / 4
  }

  function Zeros(n: nat): (r: seq<byte>)
    ensures |r| == n
  {
    seq(n, _ => 0)
  }

  /** The payload padded to whole words. */
  function Padded(payload: seq<byte>): (r: seq<byte>)
    ensures |r| == 4 * Words(|payload|)
  {
    payload + Zeros(4 * Words(|payload|) - |payload|)
  }

  /** `Msg.from_data(...).pack()`: `None` when the payload has more than 255 words. */
  function PythonMessage(txn: nat, resp: bool, rpcId: nat, payload: seq<byte>): Option<seq<byte>> {
    var header :- PythonPack(Header(Words(|payload|), txn, resp, rpcId));
    Some(header + Padded(payload))
  }

  /** `Msg.unpack` */
  function PythonParse(msg: seq<byte>): (Header, seq<byte>)
    requires |msg| >= 4
  {
    (PythonUnpack(msg[0..4]), msg[4..])
  }

  lemma MessageIs(txn: nat, resp: bool, rpcId: nat, payload: seq<byte>)
    requires txn < 256 && rpcId < 4096 && |payload| <= 1020
    ensures PythonMessage(txn, resp, rpcId, payload) ==
            Some(Encode(Header(Words(|payload|), txn, resp, rpcId)) + Padded(payload))
  {
    hide PythonPack, Encode, Padded;
    PythonHeader(Header(Words(|payload|), txn, resp, rpcId));
  }

  lemma DecodePrefix(b: seq<byte>, rest: seq<byte>)
    requires |b| == 4
    ensures Decode(b + rest) == Decode(b)
  {
  }

  /** The padding: as few zeros as make whole words. */
  lemma PaddingIsZero(payload: seq<byte>)
    ensures var p := Padded(payload);
            && |payload| <= |p| < |payload| + 4 && |p| % 4 == 0 && p[..|payload|] == payload
            && forall i :: |payload| <= i < |p| ==> p[i] == 0
  {
  }

  /** A message of at most 1020 payload bytes comes back with its padding. */
  lemma MessageRoundTrip(txn: nat, resp: bool, rpcId: nat, payload: seq<byte>)
    requires txn < 256 && rpcId < 4096
    ensures PythonMessage(txn, resp, rpcId, payload).Some? <==> |payload| <= 1020
    ensures |payload| <= 1020 ==>
              var msg := PythonMessage(txn, resp, rpcId, payload).value;
              |msg| == 4 + 4 * Words(|payload|) &&
              PythonParse(msg) == (Header(Words(|payload|), txn, resp, rpcId), Padded(payload))
  {
    hide And, Or, PythonPack, PythonUnpack, Encode, Decode;
    var h := Header(Words(|payload|), txn, resp, rpcId);
    PythonHeader(h);
    if |payload| <= 1020 {
      PythonReads(Encode(h));
      HeaderRoundTrip(h);
      var msg := PythonMessage(txn, resp, rpcId, payload).value;
      assert msg[0..4] == Encode(h) && msg[4..] == Padded(payload);
    }
  }
}
