/** The C server: `compost_msg_process` and the generated invoke functions it switches to. */
module Server {
  import opened BitOps
  import opened BitString
  import opened Results
  import opened Wire
  import opened Types
  import opened Interop
  import opened Framing

  const EINVAL := -22
  const EFLAGS := -91
  const ETXN := -92

  /** The id that the generated C code answers unknown requests with. */
  const UNKNOWN_MSG := 0xFEE

  /** What an invoke function leaves in `*tx`: id, payload length in words, payload buffer. */
  datatype Invoked = Invoked(rpcId: nat, wlen: nat, payload: seq<byte>)

  /** `compost_invoke_switch`: request id, request payload and old payload buffer to the result. */
  type Switch = (nat, seq<byte>, seq<byte>) -> Invoked

  /** What the types of the C code guarantee of any invoke function. */
  ghost predicate Sane(sw: Switch) {
    forall id, rx, tx :: var r := sw(id, rx, tx); r.rpcId < 4096 && r.wlen < 256 && |r.payload| == |tx|
  }

  /** `compost_msg_process` as a function of both buffers. */
  ghost function Process(tx: seq<byte>, rx: seq<byte>, sw: Switch): (r: (int, seq<byte>))
    requires Sane(sw)
    ensures |r.1| == |tx|
  {
    if |rx| < 4 || |tx| < 4 then (EINVAL, tx)
    else if rx[2] >= 32 then (EFLAGS, tx)
    else
      var h := Decode(rx);
      if h.txn != 0 && h.resp then (ETXN, tx)
      else
        var out := sw(h.rpcId, rx[4..], tx[4..]);
        if h.txn == 0 && out.wlen == 0 then (0, tx[..4] + out.payload)
        else (4 + 4 * out.wlen, Encode(Header(out.wlen, h.txn, true, out.rpcId)) + out.payload)
  }

  /** `compost_msg_process` */
  method MsgProcess(tx: array<byte>, rx: seq<byte>, sw: Switch) returns (ret: int)
    requires Sane(sw)
    modifies tx
    ensures (ret, tx[..]) == old(Process(tx[..], rx, sw))
  {
    hide Encode, Decode, CLoad;
    if |rx| < 4 || tx.Length < 4 {
      return EINVAL;
    }
    CReads(rx);
    var loaded := CLoad(rx);
    if loaded.None? {
      return EFLAGS;
    }
    var h := loaded.value;
    if h.txn != 0 && h.resp {
      return ETXN;
    }
    var out := sw(h.rpcId, rx[4..], tx[4..]);
    assert tx[..][4..] == tx[4..];
    ghost var pre := tx[..];
    forall i | 0 <= i < |out.payload| {
      tx[4 + i] := out.payload[i];
    }
    assert tx[4..] == out.payload && tx[..4] == pre[..4];
    if h.txn != 0 || out.wlen != 0 {
      assert tx[..0] == [];
      CStore(tx, 0, Header(out.wlen, h.txn, true, out.rpcId));
      assert [] + Encode(Header(out.wlen, h.txn, true, out.rpcId)) == Encode(Header(out.wlen, h.txn, true, out.rpcId));
      ret := 4 + 4 * out.wlen;
    } else {
      assert tx[..] == tx[..4] + tx[4..];
      ret := 0;
    }
  }

  /** The request is one that the server answers. */
  predicate Accepted(rx: seq<byte>) {
    |rx| >= 4 && rx[2] < 32 && !(rx[1] != 0 && rx[2] >= 16)
  }

  /**
    Reply discipline, for every input and any invoke functions. Requests with
    reserved flags, and responses, are refused and leave the buffer alone. An
    accepted request with a transaction number gets one reply, with the same
    number and the response flag; without a number it gets one exactly when
    there is something to say. The size returned is what the header declares.
   */
  lemma ReplyDiscipline(tx: seq<byte>, rx: seq<byte>, sw: Switch)
    requires Sane(sw) && |tx| >= 4
    ensures var (ret, tx') := Process(tx, rx, sw);
            && (ret < 0 <==> !Accepted(rx))
            && (ret < 0 ==> tx' == tx)
            && (Accepted(rx) && rx[1] != 0 ==> ret > 0)
            && (Accepted(rx) && rx[1] == 0 ==>
                  (ret == 0 <==> sw(Decode(rx).rpcId, rx[4..], tx[4..]).wlen == 0))
            && (ret > 0 ==> ret == 4 + 4 * Decode(tx').len && Decode(tx').txn == rx[1] && Decode(tx').resp)
  {
    if Accepted(rx) {
      var out := sw(Decode(rx).rpcId, rx[4..], tx[4..]);
      HeaderRoundTrip(Header(out.wlen, rx[1], true, out.rpcId));
    }
  }

  /**
    Every outcome byte by byte: the three refusals in their order, and otherwise
    what the switch made of id, request payload and old payload, behind a header
    with its length and id, the number of the request and the response flag, unless
    there is neither a number nor a result.
   */
  lemma Outcome(tx: seq<byte>, rx: seq<byte>, sw: Switch)
    requires Sane(sw)
    ensures |rx| < 4 || |tx| < 4 ==> Process(tx, rx, sw) == (-22, tx)
    ensures |rx| >= 4 && |tx| >= 4 && rx[2] >= 32 ==> Process(tx, rx, sw) == (-91, tx)
    ensures |rx| >= 4 && |tx| >= 4 && 16 <= rx[2] < 32 && rx[1] != 0 ==> Process(tx, rx, sw) == (-92, tx)
    ensures |rx| >= 4 && |tx| >= 4 && (rx[2] < 16 || (rx[2] < 32 && rx[1] == 0)) ==>
              var out := sw(rx[2] as nat % 16 * 256 + rx[3] as nat, rx[4..], tx[4..]);
              var (ret, tx') := Process(tx, rx, sw);
              && |tx'| == |tx| && tx'[4..] == out.payload
              && (if rx[1] == 0 && out.wlen == 0 then ret == 0 && tx'[..4] == tx[..4]
                  else
                    && ret == 4 + 4 * out.wlen
                    && tx'[0] as nat == out.wlen && tx'[1] == rx[1]
                    && tx'[2] as nat == 16 + out.rpcId / 256 && tx'[3] as nat == out.rpcId % 256)
  {
  }

  // ---------------------------------------------------------------- Generated invoke functions

  /** A remote procedure: parameter types, at most one result type, and the user's handler. */
  datatype Procedure = Procedure(params: seq<Ty>, result: seq<Ty>, body: seq<Val> -> seq<Val>)

  /** `compost_bytes_to_words`, which takes 16 bits and returns 8. */
  function BytesToWords(bytes: nat): (w: nat)
    ensures w < 256
  {
    (bytes % 65536 + 3) / 4 % 256
  }

  /**
    `invoke_*`: loads the arguments, calls the handler and stores its result. The
    C code does not check bounds or ranges; where it would leave its buffers this
    model leaves the payload alone.
   */
  function Invoke(id: nat, p: Procedure, rx: seq<byte>, tx: seq<byte>): (r: Invoked)
    ensures r.rpcId == id && r.wlen < 256 && |r.payload| == |tx|
  {
    var args := ReadAll(EMITTED_C, BitsOf(rx), p.params, 0);
    if args.None? || p.result == [] then Invoked(id, 0, tx) else StoreResult(id, tx, p.result, p.body(args.value.0))
  }

  function StoreResult(id: nat, tx: seq<byte>, ts: seq<Ty>, vs: seq<Val>): (r: Invoked)
    ensures r.rpcId == id && r.wlen < 256 && |r.payload| == |tx|
  {
    match EmitAll(EMITTED_C, BitsOf(tx), ts, vs, 0)
    case None => Invoked(id, 0, tx)
    case Some((b, e)) => Invoked(id, BytesToWords(Align(e) / 8), BytesOf(b))
  }

  /** `compost_invoke_switch` for a protocol. */
  ghost function SwitchOf(procs: map<nat, Procedure>): (sw: Switch)
    requires forall id :: id in procs ==> id < 4096
    ensures Sane(sw)
  {
    (id, rx, tx) => if id in procs then Invoke(id, procs[id], rx, tx) else Invoked(UNKNOWN_MSG, 0, tx)
  }

  /**
    The C server answers an id that it does not know with the id that the C#
    client takes for an error response, and never with the one that it takes for an
    unsupported call, unless the protocol itself has a procedure of that id.
   */
  lemma UnknownIsReportedAsError(procs: map<nat, Procedure>, tx: seq<byte>, rx: seq<byte>)
    requires (forall id :: id in procs ==> id < 4096) && |tx| >= 4 && Accepted(rx) && rx[1] != 0
    ensures var (ret, tx') := Process(tx, rx, SwitchOf(procs));
            && (Decode(rx).rpcId !in procs ==>
                  ret == 4 && Decode(tx') == Header(0, rx[1], true, 0xFEE) && IsErrorResponse(Decode(tx')))
            && (IsUnsupportedResponse(Decode(tx')) ==> Decode(rx).rpcId == 0xFEF && 0xFEF in procs)
            && (IsErrorResponse(Decode(tx')) <==> Decode(rx).rpcId !in procs || Decode(rx).rpcId == 0xFEE)
  {
    hide Encode, Decode, Invoke;
    var id := Decode(rx).rpcId;
    var out := SwitchOf(procs)(id, rx[4..], tx[4..]);
    var h := Header(out.wlen, rx[1], true, out.rpcId);
    ReplyHeader(rx, h, out.payload);
  }

  lemma ReplyHeader(rx: seq<byte>, h: Header, payload: seq<byte>)
    requires Accepted(rx) && WellFormed(h)
    ensures Decode(rx).txn == rx[1] && (rx[1] != 0 ==> !Decode(rx).resp) && Decode(Encode(h) + payload) == h
  {
    HeaderRoundTrip(h);
    DecodePrefix(Encode(h), payload);
  }
}
