/** C# messages made from objects: a buffer of the computed size, the header, and the serialized arguments. */
module CSharpMessage {
  import opened BitOps
  import opened BitString
  import opened Results
  import opened Wire
  import opened Types
  import opened Interop
  import opened Runs
  import opened Encoding
  import opened Framing
  import opened CSharpCodec
  import opened CSharpSize
  import opened CSharpStream
  import opened Server
  import opened EndToEnd

  /** `BufferUnit.Words`: rounded up. */
  function BitsToWords(bits: nat): nat {
    (bits + 31) / 32
  }

  /** Bits that `InitBuffer` makes room for behind the header. */
  function BufferBits(ts: seq<Ty>, vs: seq<Val>): nat
    requires ConformAll(ts, vs)
  {
    32 * BitsToWords(AllValueBits(ts, vs))
  }

  /** Bits by which rounding up to words exceeds a size. */
  function Slack(bits: nat): nat {
    32 * BitsToWords(bits) - bits
  }

  /** The message is not over the limit of 255 words, and the padding of its types fits what rounding leaves over. */
  predicate Buildable(ts: seq<Ty>, vs: seq<Val>)
    requires ConformAll(ts, vs)
  {
    var size := AllValueBits(ts, vs);
    size <= 32 * 255 && Padding(TokensAll(ts), 0) <= Slack(size)
  }

  /** The serialized arguments fit their buffer exactly when the padding fits the slack. */
  lemma OverrunIff(ts: seq<Ty>, vs: seq<Val>)
    requires ConformAll(ts, vs)
    ensures EndOf(CSHARP_SERIALIZE, ts, vs, 0) <= BufferBits(ts, vs) <==>
            Padding(TokensAll(ts), 0) <= Slack(AllValueBits(ts, vs))
  {
    hide EndOf, AllValueBits, Padding;
    AllSizesAdvance(ts, vs, 0);
  }

  /** The payload of a message: the serialized arguments over zeros. */
  function Payload(ts: seq<Ty>, vs: seq<Val>): seq<bool>
    requires ConformAll(ts, vs) && Buildable(ts, vs)
  {
    OverrunIff(ts, vs);
    Write(CSHARP_SERIALIZE, Falses(BufferBits(ts, vs)), ts, vs, 0)
  }

  /** The message carries these arguments under this transaction number and id. */
  predicate Carries(msg: seq<byte>, txn: nat, id: nat, resp: bool, ts: seq<Ty>, vs: seq<Val>)
    requires ConformAll(ts, vs) && txn < 256 && id < 4096
  {
    && Buildable(ts, vs) && |msg| >= 4
    && msg[..4] == Encode(Header(BitsToWords(AllValueBits(ts, vs)), txn, resp, id))
    && BitsOf(msg[4..]) == Payload(ts, vs)
  }

  lemma ZeroBytes(n: nat)
    ensures BitsOf(Framing.Zeros(n)) == Falses(8 * n)
  {
    forall i | 0 <= i < 8 * n ensures BitsOf(Framing.Zeros(n))[i] == Falses(8 * n)[i] {
      BitsOfAt(Framing.Zeros(n), i);
      ZeroBits(7 - i % 8);
    }
  }

  lemma StaticMessageSize(ts: seq<Ty>, vs: seq<Val>)
    requires ConformAll(ts, vs) && AllStatic(ts)
    ensures AllValueBits(ts, vs) == AllStaticBits(ts)
  {
    AllStaticIsExact(ts, vs);
  }

  /** `new Message(txn, rpcId, resp, args)`: `None` when an exception is thrown. */
  method FromObjects(cache: SizeCache, txn: nat, rpcId: nat, resp: bool, ts: seq<Ty>, vs: seq<Val>)
    returns (r: Option<seq<byte>>)
    requires cache.Valid() && txn < 256
    requires NoBitArguments(ts) && SupportedAll(ts) && ConformAll(ts, vs)
    modifies cache
    ensures cache.Valid()
    ensures r.Some? <==> Buildable(ts, vs)
    ensures r.Some? ==>
              IsMessage(r.value) && Carries(r.value, txn, rpcId % 4096, resp, ts, vs)
  {
    hide BitsOf, Encode, EndOf, Write, AllValueBits, SupportedAll, ConformAll, Falses, AllStatic, Padding, Payload;
    var isFixed, size := cache.Shape(ts);
    if isFixed {
      StaticMessageSize(ts, vs);
    } else {
      size := cache.GetMembersSize(ts, vs);
    }
    if size > 32 * 255 {
      return None;
    }
    var words := BitsToWords(size);
    var raw := new byte[4 + 4 * words](_ => 0);
    assert raw[4..] == Framing.Zeros(4 * words);
    CSharpWrite(raw, Header(words, txn, resp, rpcId));
    ghost var h := Header(words, txn, resp, rpcId % 4096);
    ghost var was := raw[..];
    assert was == Encode(h) + Framing.Zeros(4 * words);
    AllConformingArePresentable(ts, vs);
    var ok, _ := SerializeAll(raw, 32, ts, vs);
    SerializedMessage(h, was, raw[..], ok, ts, vs);
    if !ok {
      return None;
    }
    r := Some(raw[..]);
  }

  /** What serializing behind a header makes of a fresh buffer. */
  lemma SerializedMessage(h: Header, was: seq<byte>, raw: seq<byte>, ok: bool, ts: seq<Ty>, vs: seq<Val>)
    requires WellFormed(h) && ConformAll(ts, vs) && h.len == BitsToWords(AllValueBits(ts, vs))
    requires was == Encode(h) + Framing.Zeros(4 * h.len) && |raw| == |was|
    requires EmitAll(CSHARP_SERIALIZE, BitsOf(was), ts, vs, 32).Some? == ok
    requires ok ==> EmitAll(CSHARP_SERIALIZE, BitsOf(was), ts, vs, 32).value.0 == BitsOf(raw)
    ensures ok <==> Padding(TokensAll(ts), 0) <= Slack(AllValueBits(ts, vs))
    ensures ok && AllValueBits(ts, vs) <= 32 * 255 ==>
              IsMessage(raw) && raw[..4] == Encode(h) && BitsOf(raw[4..]) == Payload(ts, vs)
  {
    hide BitsOf, Encode, Put, End, LeavesAll, TokensAll, AllValueBits, Falses, Padding;
    OverrunIff(ts, vs);
    var a, b := BitsOf(Encode(h)), Falses(32 * h.len);
    ZeroBytes(4 * h.len);
    BitsOfAppend(Encode(h), Framing.Zeros(4 * h.len));
    EndShift(CSHARP_SERIALIZE, TokensAll(ts), LeavesAll(ts, vs), 32, 0);
    if ok {
      assert a + b + [] == a + b;
      PutWindow(CSHARP_SERIALIZE, a, b, [], TokensAll(ts), LeavesAll(ts, vs), 0);
      var out := Write(CSHARP_SERIALIZE, b, ts, vs, 0);
      assert BitsOf(raw) == a + out;
      assert raw == raw[..4] + raw[4..];
      BitsOfAppend(raw[..4], raw[4..]);
      assert BitsOf(raw[..4]) == (a + out)[..32] == a;
      assert BitsOf(raw[4..]) == (a + out)[32..] == out;
      BitsOfInjective(raw[..4], Encode(h));
      LengthByte(h);
    }
  }

  /** Types without padding never overrun the buffer: only the size limit counts. */
  lemma NeverOverrun(ts: seq<Ty>, vs: seq<Val>)
    requires ConformAll(ts, vs) && NoPadding(TokensAll(ts), 0)
    ensures Buildable(ts, vs) <==> AllValueBits(ts, vs) <= 32 * 255
  {
    NoPaddingIff(TokensAll(ts), 0);
  }

  /** A static type that fits the limit can always be sent or never: its size and padding decide. */
  lemma StaticAlwaysOrNever(ts: seq<Ty>, vs: seq<Val>)
    requires ConformAll(ts, vs) && AllStatic(ts)
    ensures Buildable(ts, vs) <==>
            AllStaticBits(ts) <= 32 * 255 && Padding(TokensAll(ts), 0) <= Slack(AllStaticBits(ts))
  {
    AllStaticIsExact(ts, vs);
  }

  /** `{BitU[4], U8, BitU[4], U16}` takes 32 bits without padding and 40 with it. */
  const OVERRUN := TStruct([TBit(4), TNum(U8), TBit(4), TNum(U16)])

  /** No value of this type can be sent: serializing it always runs past the end of its buffer. */
  lemma AlwaysOverruns(v: Val)
    requires ConformAll([OVERRUN], [v])
    ensures !Buildable([OVERRUN], [v])
  {
    hide ConformAll, AllStaticBits, AllValueBits, Padding, TokensAll;
    OverrunSize();
    OverrunTokens();
    OverrunPadding();
    StaticAlwaysOrNever([OVERRUN], [v]);
  }

  lemma OverrunPadding()
    ensures Padding([Open, Bits(4), Prim(1), Bits(4), Prim(2), Close], 0) == 8
  {
    var ts := [Open, Bits(4), Prim(1), Bits(4), Prim(2), Close];
    assert ts[5..][1..] == [] && Padding(ts[5..], 0) == 0;
    assert ts[4..][1..] == ts[5..] && Padding(ts[4..], 4) == 4;
    assert ts[3..][1..] == ts[4..] && Padding(ts[3..], 0) == 4;
    assert ts[2..][1..] == ts[3..] && Padding(ts[2..], 4) == 8;
    assert ts[1..][1..] == ts[2..] && Padding(ts[1..], 0) == 8;
  }

  lemma OverrunTokens()
    ensures TokensAll([OVERRUN]) == [Open, Bits(4), Prim(1), Bits(4), Prim(2), Close]
  {
    var ms := OVERRUN.members;
    assert ms[1..] == [TNum(U8), TBit(4), TNum(U16)];
    assert ms[1..][1..] == [TBit(4), TNum(U16)];
    assert ms[1..][1..][1..] == [TNum(U16)];
    assert TokensAll([TNum(U16)]) == [Prim(2)];
    assert TokensAll([TBit(4), TNum(U16)]) == [Bits(4), Prim(2)];
    assert TokensAll(ms[1..]) == [Prim(1), Bits(4), Prim(2)];
    assert TokensAll(ms) == [Bits(4), Prim(1), Bits(4), Prim(2)];
  }

  lemma OverrunSize()
    ensures AllStatic([OVERRUN]) && AllStaticBits([OVERRUN]) == 32
  {
    var ms := OVERRUN.members;
    assert ms[1..] == [TNum(U8), TBit(4), TNum(U16)];
    assert ms[1..][1..] == [TBit(4), TNum(U16)];
    assert ms[1..][1..][1..] == [TNum(U16)];
    assert AllStatic([TNum(U16)]) && AllStaticBits([TNum(U16)]) == 16;
    assert AllStatic([TBit(4), TNum(U16)]) && AllStaticBits([TBit(4), TNum(U16)]) == 20;
    assert IsStatic(TNum(U8)) && StaticBits(TNum(U8)) == 8;
    assert AllStatic(ms[1..]) && AllStaticBits(ms[1..]) == 8 + AllStaticBits([TBit(4), TNum(U16)]) == 28;
    assert AllStatic(ms) && AllStaticBits(ms) == 32;
  }

  /**
    Every bit of a message: the header, the fields in order, structs neither
    beginning nor finishing at byte boundaries, and zeros up to a word.
   */
  lemma MessageBits(msg: seq<byte>, txn: nat, id: nat, resp: bool, ts: seq<Ty>, vs: seq<Val>)
    requires ConformAll(ts, vs) && txn < 256 && id < 4096 && Carries(msg, txn, id, resp, ts, vs)
    ensures var n := BufferBits(ts, vs);
            var fields := LaidAll(Falses(n), ts, vs, 0, false, false);
            && |fields| <= n && BitsOf(msg[4..]) == fields + Falses(n - |fields|)
  {
    hide BitsOf, Encode, LaidAll, AllValueBits, Padding, EndOf, Write, Holds, Falses;
    OverrunIff(ts, vs);
    var zeros := Falses(BufferBits(ts, vs));
    EmitAllIsLaid(CSHARP_SERIALIZE, zeros, ts, vs, 0);
    ZerosBehind(Payload(ts, vs), |zeros|, LaidAll(zeros, ts, vs, 0, false, false));
  }

  lemma ZerosBehind(now: seq<bool>, n: nat, l: seq<bool>)
    requires Holds(now, Falses(n), 0, l)
    ensures |l| <= n && now == l + Falses(n - |l|)
  {
    assert Falses(n)[0 + |l|..] == Falses(n - |l|);
    assert Falses(n)[..0] + l == l;
  }

  /** C# gets its own messages back when every run of bit fields in front of a number or list is whole bytes. */
  lemma CSharpReadsItself(msg: seq<byte>, txn: nat, id: nat, ts: seq<Ty>, vs: seq<Val>)
    requires ConformAll(ts, vs) && txn < 256 && id < 4096 && Carries(msg, txn, id, false, ts, vs)
    requires CSharpReadsCSharp(ts)
    ensures Receives(CSHARP_DESERIALIZE, msg[4..], ts, vs)
  {
    hide Carries, Receives, CSharpReadsCSharp, CReadsCSharp;
    FromCSharpIff(ts);
    MessageIsUnderstood(msg, txn, id, CSHARP_DESERIALIZE, ts, vs);
  }

  // ---------------------------------------------------------------- Calls from C#

  /** Every reader that is compatible with the C# writer gets the arguments back from such a message. */
  lemma MessageIsUnderstood(msg: seq<byte>, txn: nat, id: nat, d: Dialect, ts: seq<Ty>, vs: seq<Val>)
    requires ConformAll(ts, vs) && txn < 256 && id < 4096 && Carries(msg, txn, id, false, ts, vs)
    requires CompatibleTypes(CSHARP_SERIALIZE, d, ts)
    ensures Receives(d, msg[4..], ts, vs)
  {
    hide BitsOf, ReadAll, Falses, Encode, AllValueBits, Padding;
    OverrunIff(ts, vs);
    ReadOfWrite(CSHARP_SERIALIZE, d, Falses(BufferBits(ts, vs)), ts, vs, 0, 0, BitsOf(msg[4..]));
  }

  lemma MessageHeader(msg: seq<byte>, txn: nat, id: nat, ts: seq<Ty>, vs: seq<Val>)
    requires ConformAll(ts, vs) && txn < 256 && id < 4096 && Carries(msg, txn, id, false, ts, vs)
    ensures Accepted(msg) && msg[1] == txn && Decode(msg).rpcId == id
  {
    hide BitsOf, AllValueBits, Padding, Payload;
    var h := Header(BitsToWords(AllValueBits(ts, vs)), txn, false, id);
    HeaderRoundTrip(h);
    DecodePrefix(msg[..4], msg[4..]);
    assert msg == msg[..4] + msg[4..];
  }

  /**
    End to end from C#, with every server that serves what it reads: the reply
    deserializes to what the procedure returns for the arguments.
   */
  lemma CSharpCall(sw: Switch, p: Procedure, msg: seq<byte>, txn: nat, id: nat, args: seq<Val>, tx: seq<byte>)
    requires Sane(sw) && id < 4096 && 0 < txn < 256 && |tx| >= 1024
    requires ConformAll(p.params, args) && Carries(msg, txn, id, false, p.params, args)
    requires CReadsCSharp(p.params)
    requires Receives(EMITTED_C, msg[4..], p.params, args) ==> Serves(sw, id, p, msg[4..], tx[4..], args)
    requires CSharpReadsC(p.result) && Returns(p, args)
    ensures var (ret, out) := Process(tx, msg, sw);
            Answers(CSHARP_DESERIALIZE, ret, out, txn, id, p.result, p.body(args))
  {
    hide Carries, Decode, Returns, Receives, CompatibleTypes, Answers, Serves, CReadsCSharp, CSharpReadsCSharp,
         CSharpReadsC, PythonReadsC;
    FromCSharpIff(p.params);
    FromCIff(p.result);
    MessageHeader(msg, txn, id, p.params, args);
    MessageIsUnderstood(msg, txn, id, EMITTED_C, p.params, args);
    ServerAnswers(sw, p, msg, args, tx, CSHARP_DESERIALIZE);
  }

  /**
    The transaction counter of a C# session wraps through 0, which the server
    takes for a notification: a call with that number to a procedure without a
    result is never answered.
   */
  lemma CallZeroIsNotAnswered(procs: map<nat, Procedure>, msg: seq<byte>, id: nat, args: seq<Val>, tx: seq<byte>)
    requires (forall i :: i in procs ==> i < 4096) && id in procs && procs[id].result == [] && |tx| >= 4
    requires ConformAll(procs[id].params, args) && Carries(msg, 0, id, false, procs[id].params, args)
    ensures Process(tx, msg, SwitchOf(procs)).0 == 0
  {
    hide Carries, Decode, Encode;
    MessageHeader(msg, 0, id, procs[id].params, args);
    ReplyDiscipline(tx, msg, SwitchOf(procs));
  }
}
