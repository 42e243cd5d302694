/** A whole remote call: Python packing and framing, the C server, and Python unpacking. */
module EndToEnd {
  import opened BitOps
  import opened BitString
  import opened Results
  import opened Wire
  import opened Types
  import opened Interop
  import opened Runs
  import opened PythonCodec
  import opened PythonPayload
  import opened Framing
  import opened Server

  // ---------------------------------------------------------------- Arguments are always understood

  /** Argument lists that the C generator accepts and Python can pack. */
  predicate Arguments(ts: seq<Ty>) {
    Flat(ts) && forall i :: 0 <= i < |ts| ==> !ts[i].TBit?
  }

  /** Inside a struct without structs, Python's writer and the emitted reader keep the same positions. */
  lemma {:induction false} MembersCompatible(ms: seq<Ty>, rest: seq<Token>, p: nat)
    requires NoStruct(ms)
    requires forall q :: Compatible(PYTHON_PACK, EMITTED_C, rest, q, q)
    ensures Compatible(PYTHON_PACK, EMITTED_C, TokensAll(ms) + rest, p, p)
    decreases |ms|
  {
    if ms == [] {
      assert TokensAll(ms) + rest == rest;
    } else {
      var tk, tl := Tokens(ms[0]), TokensAll(ms[1..]) + rest;
      assert TokensAll(ms) + rest == tk + tl;
      assert |tk| == 1 && (tk + tl)[1..] == tl;
      MembersCompatible(ms[1..], rest, Phase(EMITTED_C, tk[0], p));
    }
  }

  /** Every argument list that can be sent is understood by the emitted load code, with no further condition. */
  lemma {:induction false} ArgumentsCompatible(ts: seq<Ty>, p: nat, u: nat)
    requires Arguments(ts)
    ensures Compatible(PYTHON_PACK, EMITTED_C, TokensAll(ts), p, u)
    decreases |ts|
  {
    if ts != [] {
      var tl := TokensAll(ts[1..]);
      forall q, v ensures Compatible(PYTHON_PACK, EMITTED_C, tl, q, v) {
        ArgumentsCompatible(ts[1..], q, v);
      }
      if ts[0].TStruct? {
        StructCompatible(ts[0].members, tl, p, u);
      } else {
        var tk := Tokens(ts[0]);
        assert |tk| == 1 && (tk + tl)[1..] == tl;
      }
    }
  }

  /** So the condition on types holds of all of them. */
  lemma ArgumentsAreRead(ts: seq<Ty>)
    requires Arguments(ts)
    ensures CReadsPython(ts)
  {
    hide CReadsPython, PythonReadsPython, Arguments;
    ArgumentsCompatible(ts, 0, 0);
    FromPythonIff(ts);
  }

  lemma StructCompatible(ms: seq<Ty>, tl: seq<Token>, p: nat, u: nat)
    requires NoStruct(ms) && forall q, v :: Compatible(PYTHON_PACK, EMITTED_C, tl, q, v)
    ensures Compatible(PYTHON_PACK, EMITTED_C, Tokens(TStruct(ms)) + tl, p, u)
  {
    hide TokensAll;
    forall q ensures Compatible(PYTHON_PACK, EMITTED_C, [Close] + tl, q, q) {
      assert ([Close] + tl)[1..] == tl;
    }
    MembersCompatible(ms, [Close] + tl, 0);
    var all := [Open] + (TokensAll(ms) + ([Close] + tl));
    assert Tokens(TStruct(ms)) + tl == all;
    assert all[1..] == TokensAll(ms) + ([Close] + tl);
  }

  // ---------------------------------------------------------------- The call

  /** The C server loads exactly the arguments that were packed. */
  lemma ServerReadsArguments(ts: seq<Ty>, args: seq<Val>)
    requires Arguments(ts) && PayloadOf(ts, args).Some?
    ensures var g := ReadAll(EMITTED_C, BitsOf(Padded(PayloadOf(ts, args).value)), ts, 0);
            g.Some? && g.value.0 == args
  {
    hide BitsOf, Blank, Padded, ReadAll;
    ArgumentsCompatible(ts, 0, 0);
    var payload := PayloadOf(ts, args).value;
    var pad := Framing.Zeros(4 * Words(|payload|) - |payload|);
    assert Padded(payload) == payload + pad by {
      PaddedIs(payload);
    }
    BitsOfAppend(payload, pad);
    var e, out := EndOf(PYTHON_PACK, ts, args, 0), Write(PYTHON_PACK, Blank(), ts, args, 0);
    PrefixOfPrefix(out, BitsOf(pad), e, Align(e));
    ReadOfWrite(PYTHON_PACK, EMITTED_C, Blank(), ts, args, 0, 0, BitsOf(payload + pad));
  }

  lemma PaddedIs(payload: seq<byte>)
    ensures Padded(payload) == payload + Framing.Zeros(4 * Words(|payload|) - |payload|)
  {
  }

  /** Reader `r` gets from `payload` exactly the values `vs`. */
  predicate Receives(r: Dialect, payload: seq<byte>, ts: seq<Ty>, vs: seq<Val>) {
    var g := ReadAll(r, BitsOf(payload), ts, 0);
    g.Some? && g.value.0 == vs
  }

  /** A compatible client reads back exactly the result that the emitted code stored, cut at a word boundary. */
  lemma ClientReadsResult(d: Dialect, ts: seq<Ty>, vs: seq<Val>, tx: seq<byte>, n: nat)
    requires CompatibleTypes(EMITTED_C, d, ts)
    requires var r := EmitAll(EMITTED_C, BitsOf(tx), ts, vs, 0); r.Some? && r.value.1 <= 8 * n && n <= |tx|
    ensures var (b, _) := EmitAll(EMITTED_C, BitsOf(tx), ts, vs, 0).value;
            Receives(d, BytesOf(b)[..n], ts, vs)
  {
    hide BitsOf, ReadAll, Write, EndOf, BytesOf;
    var (b, e) := EmitAll(EMITTED_C, BitsOf(tx), ts, vs, 0).value;
    var bytes := BytesOf(b);
    BitsOfSlice(bytes, 0, n);
    assert bytes[0..n] == bytes[..n];
    assert b[8 * 0..8 * n][..e] == b[..e];
    ReadOfWrite(EMITTED_C, d, BitsOf(tx), ts, vs, 0, 0, BitsOf(bytes[..n]));
  }

  lemma WordsHold(e: nat)
    requires Align(e) <= 8 * 1020
    ensures var w := BytesToWords(Align(e) / 8); w == (e + 31) / 32 <= 255 && e <= 8 * (4 * w)
  {
    hide Align, BytesToWords, Words;
    var n := Align(e) / 8;
    WholeBytesHold(e);
    FewWords(n);
    RoundedTwice(e, n);
  }

  lemma WholeBytesHold(e: nat)
    ensures e <= Align(e) == 8 * (Align(e) / 8) < e + 8
  {
  }

  /** Rounding up to bytes and then to words is rounding up to words. */
  lemma RoundedTwice(e: nat, n: nat)
    requires e <= 8 * n < e + 8
    ensures (n + 3) / 4 == (e + 31) / 32 == Words(n)
  {
    var w := (n + 3) / 4;
    assert 4 * w <= n + 3 < 4 * w + 4;
    assert 32 * w <= e + 31 < 32 * w + 32;
  }

  lemma FewWords(n: nat)
    requires n <= 1020
    ensures BytesToWords(n) == Words(n) <= 255 && n <= 4 * Words(n)
  {
    assert n % 65536 == n && (n + 3) / 4 % 256 == (n + 3) / 4;
  }

  /** The request on the wire. */
  function Request(txn: nat, id: nat, payload: seq<byte>): seq<byte>
    requires 0 < txn < 256 && id < 4096 && |payload| <= 1020
  {
    MessageRoundTrip(txn, false, id, payload);
    PythonMessage(txn, false, id, payload).value
  }

  lemma RequestIsAccepted(txn: nat, id: nat, payload: seq<byte>)
    requires 0 < txn < 256 && id < 4096 && |payload| <= 1020
    ensures var rx := Request(txn, id, payload);
            Accepted(rx) && Decode(rx) == Header(Words(|payload|), txn, false, id) && rx[4..] == Padded(payload)
  {
    hide Padded, PythonMessage, Decode;
    var h := Header(Words(|payload|), txn, false, id);
    MessageIs(txn, false, id, payload);
    HeaderRoundTrip(h);
    DecodePrefix(Encode(h), Padded(payload));
  }

  /** The result of the procedure is of its type and fits a message. */
  predicate Returns(p: Procedure, args: seq<Val>) {
    ConformAll(p.result, p.body(args)) && Align(EndOf(EMITTED_C, p.result, p.body(args), 0)) <= 8 * 1020
  }

  /** The reply in `out` has this transaction number and id, and its payload reads as `vs`. */
  predicate Answers(d: Dialect, ret: int, out: seq<byte>, txn: nat, id: nat, ts: seq<Ty>, vs: seq<Val>) {
    && 4 <= ret <= |out|
    && Decode(out) == Header((ret - 4) / 4, txn, true, id)
    && Receives(d, out[4..ret], ts, vs)
  }

  /**
    The switch answers a request with this payload by storing what the procedure
    returns for `args` over some buffer.
   */
  ghost predicate Serves(sw: Switch, id: nat, p: Procedure, rx: seq<byte>, tx: seq<byte>, args: seq<Val>) {
    if p.result == [] then sw(id, rx, tx).rpcId == id && sw(id, rx, tx).wlen == 0
    else exists buf: seq<byte> :: |buf| == |tx| && sw(id, rx, tx) == StoreResult(id, buf, p.result, p.body(args))
  }

  /** The generated switch serves every request whose payload reads as `args`. */
  lemma SwitchServes(procs: map<nat, Procedure>, id: nat, rx: seq<byte>, tx: seq<byte>, args: seq<Val>)
    requires (forall i :: i in procs ==> i < 4096) && id in procs && Receives(EMITTED_C, rx, procs[id].params, args)
    ensures Serves(SwitchOf(procs), id, procs[id], rx, tx, args)
  {
    hide StoreResult, ReadAll, BitsOf;
  }

  /**
    The server's side of a call, for every client and every server that serves the
    request, whatever its buffers held before: the reply carries number and id of
    the request, and every client whose reader is compatible with the emitted code
    reads just what the procedure returns for `args`. It has no more words than the
    encoding needs.
   */
  lemma ServerAnswers(sw: Switch, p: Procedure, rx: seq<byte>, args: seq<Val>, tx: seq<byte>, d: Dialect)
    requires Sane(sw) && |tx| >= 1024 && Accepted(rx) && rx[1] != 0
    requires Serves(sw, Decode(rx).rpcId, p, rx[4..], tx[4..], args)
    requires CompatibleTypes(EMITTED_C, d, p.result) && Returns(p, args)
    ensures var (ret, out) := Process(tx, rx, sw);
            && Answers(d, ret, out, rx[1], Decode(rx).rpcId, p.result, p.body(args))
            && ret == 4 + 4 * ((EndOf(EMITTED_C, p.result, p.body(args), 0) + 31) / 32)
  {
    hide BitsOf, ReadAll, Encode, Decode, EmitAll, Returns, BytesOf, BytesToWords, Words, Receives, Serves, EndOf;
    ReturnsConform(p, args);
    var id := Decode(rx).rpcId;
    TxnByte(rx);
    var inv := sw(id, rx[4..], tx[4..]);
    ReplyPayload(d, sw, id, p, rx[4..], tx[4..], args);
    var h := Header(inv.wlen, rx[1], true, id);
    HeaderRoundTrip(h);
    DecodePrefix(Encode(h), inv.payload);
    var ret := 4 + 4 * inv.wlen;
    assert (Encode(h) + inv.payload)[4..ret] == inv.payload[..4 * inv.wlen];
  }

  lemma TxnByte(rx: seq<byte>)
    requires Accepted(rx)
    ensures Decode(rx).txn == rx[1] && (rx[1] != 0 ==> !Decode(rx).resp)
  {
  }

  lemma NothingReceived(d: Dialect, payload: seq<byte>)
    ensures Receives(d, payload, [], [])
  {
  }

  lemma NothingReturned(p: Procedure, args: seq<Val>)
    requires p.result == [] && Returns(p, args)
    ensures p.body(args) == [] && EndOf(EMITTED_C, p.result, p.body(args), 0) == 0
  {
  }

  lemma ReturnsConform(p: Procedure, args: seq<Val>)
    requires Returns(p, args)
    ensures ConformAll(p.result, p.body(args))
  {
  }

  lemma ReplyPayload(d: Dialect, sw: Switch, id: nat, p: Procedure, rx: seq<byte>, tx: seq<byte>, args: seq<Val>)
    requires Sane(sw) && |tx| >= 1020 && Serves(sw, id, p, rx, tx, args)
    requires CompatibleTypes(EMITTED_C, d, p.result) && Returns(p, args)
    ensures ConformAll(p.result, p.body(args))
    ensures var r := sw(id, rx, tx);
            && r.rpcId == id && |r.payload| == |tx| && 4 * r.wlen <= |tx|
            && r.wlen == (EndOf(EMITTED_C, p.result, p.body(args), 0) + 31) / 32
            && Receives(d, r.payload[..4 * r.wlen], p.result, p.body(args))
  {
    hide StoreResult, Receives, Returns, CompatibleTypes, EndOf, ConformAll;
    ReturnsConform(p, args);
    if p.result == [] {
      NothingReceived(d, sw(id, rx, tx).payload[..0]);
      NothingReturned(p, args);
    } else {
      var buf: seq<byte> :| |buf| == |tx| && sw(id, rx, tx) == StoreResult(id, buf, p.result, p.body(args));
      StoredIsReceived(d, id, p, buf, args);
    }
  }

  lemma StoredIsReceived(d: Dialect, id: nat, p: Procedure, buf: seq<byte>, args: seq<Val>)
    requires |buf| >= 1020 && CompatibleTypes(EMITTED_C, d, p.result) && Returns(p, args)
    ensures ConformAll(p.result, p.body(args))
    ensures var r := StoreResult(id, buf, p.result, p.body(args));
            && 4 * r.wlen <= |buf| && r.wlen == (EndOf(EMITTED_C, p.result, p.body(args), 0) + 31) / 32
            && Receives(d, r.payload[..4 * r.wlen], p.result, p.body(args))
  {
    hide BitsOf, BytesOf, Align, Receives, EndOf, Words, CompatibleTypes, BytesToWords, ConformAll;
    var e := EndOf(EMITTED_C, p.result, p.body(args), 0);
    WordsHold(e);
    ClientReadsResult(d, p.result, p.body(args), buf, 4 * BytesToWords(Align(e) / 8));
  }

  /**
    End to end: for every procedure whose result type Python understands, every
    packable argument list and every server that serves what it reads, the reply to
    a call carries the call's transaction number and unpacks to exactly what the
    handler returned for exactly the arguments that were sent. `SwitchServes` gives
    the generated switch, and a server running in memory does as well.
   */
  lemma RemoteCall(sw: Switch, p: Procedure, id: nat, txn: nat, args: seq<Val>, tx: seq<byte>)
    requires Sane(sw) && id < 4096 && 0 < txn < 256 && |tx| >= 1024 && Arguments(p.params)
    requires PayloadOf(p.params, args).Some? && |PayloadOf(p.params, args).value| <= 1020
    requires var rx := Request(txn, id, PayloadOf(p.params, args).value);
             Receives(EMITTED_C, rx[4..], p.params, args) ==> Serves(sw, id, p, rx[4..], tx[4..], args)
    requires PythonReadsC(p.result) && Returns(p, args)
    ensures var (ret, out) := Process(tx, Request(txn, id, PayloadOf(p.params, args).value), sw);
            && 4 <= ret <= |out|
            && PythonParse(out[..ret]).0 == Header((ret - 4) / 4, txn, true, id)
            && Unpacked(p.result, PythonParse(out[..ret]).1) == Some(p.body(args))
  {
    hide BitsOf, ReadAll, PayloadOf, Decode, EmitAll, Padded, PythonUnpack, Words, Returns, Serves, PythonReadsC,
         CSharpReadsC;
    FromCIff(p.result);
    var payload := PayloadOf(p.params, args).value;
    var rx := Request(txn, id, payload);
    RequestIsAccepted(txn, id, payload);
    ServerReadsArguments(p.params, args);
    TxnByte(rx);
    ServerAnswers(sw, p, rx, args, tx, PYTHON_UNPACK);
    var (ret, out) := Process(tx, rx, sw);
    PythonReads(out[..ret][0..4]);
    DecodePrefix(out[..4], out[4..]);
    assert out[..4] + out[4..] == out && out[..ret][0..4] == out[..4] && out[..ret][4..] == out[4..ret];
  }

  /** In particular, from the generated server. */
  lemma GeneratedCall(procs: map<nat, Procedure>, id: nat, txn: nat, args: seq<Val>, tx: seq<byte>)
    requires (forall i :: i in procs ==> i < 4096) && id in procs && 0 < txn < 256 && |tx| >= 1024
    requires Arguments(procs[id].params)
    requires PayloadOf(procs[id].params, args).Some? && |PayloadOf(procs[id].params, args).value| <= 1020
    requires PythonReadsC(procs[id].result) && Returns(procs[id], args)
    ensures var p := procs[id];
            var (ret, out) := Process(tx, Request(txn, id, PayloadOf(p.params, args).value), SwitchOf(procs));
            && 4 <= ret <= |out|
            && PythonParse(out[..ret]).0 == Header((ret - 4) / 4, txn, true, id)
            && Unpacked(p.result, PythonParse(out[..ret]).1) == Some(p.body(args))
  {
    hide Receives, Serves, PayloadOf, PythonParse, Process, SwitchOf, Returns, Request, PythonReadsC;
    var rx := Request(txn, id, PayloadOf(procs[id].params, args).value);
    RequestIsAccepted(txn, id, PayloadOf(procs[id].params, args).value);
    if Receives(EMITTED_C, rx[4..], procs[id].params, args) {
      SwitchServes(procs, id, rx[4..], tx[4..], args);
    }
    RemoteCall(SwitchOf(procs), procs[id], id, txn, args, tx);
  }
}
