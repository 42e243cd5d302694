/** C# messages on a byte stream: construction, and reassembly from reads of any size. */
module CSharpStream {
  import opened BitString
  import opened Results
  import opened Framing

  /** A message is its buffer, header included; the header says how long it is. */
  predicate IsMessage(m: seq<byte>) {
    |m| >= 4 && |m| == 4 + 4 * (m[0] as nat)
  }

  /** `new Message(txn, rpcId, resp, payload)`: `None` when the payload exceeds 255 words. */
  method NewMessage(txn: nat, rpcId: nat, resp: bool, payload: seq<byte>) returns (r: Option<seq<byte>>)
    requires txn < 256
    ensures r.Some? <==> |payload| <= 1020
    ensures r.Some? ==> IsMessage(r.value) && r == PythonMessage(txn, resp, rpcId, payload)
  {
    hide Encode, PythonPack;
    if 8 * |payload| > 32 * 255 {
      return None;
    }
    var words := Words(|payload|);
    var raw := new byte[4 + 4 * words](_ => 0);
    forall i | 0 <= i < |payload| {
      raw[4 + i] := payload[i];
    }
    assert raw[4..] == Padded(payload);
    var h := Header(words, txn, resp, rpcId);
    CSharpWrite(raw, h);
    PythonHeader(h);
    LengthByte(Cut(h));
    r := Some(raw[..]);
  }

  lemma LengthByte(h: Header)
    requires WellFormed(h)
    ensures Encode(h)[0] == h.len
  {
  }

  /** A stream: the bytes that are still to be read. */
  class ByteStream {
    var pending: seq<byte>

    constructor (bytes: seq<byte>)
      ensures pending == bytes
    {
      pending := bytes;
    }

    /** `Stream.ReadAsync`: any non-empty part of what is wanted and available; 0 at the end. */
    method Read(buffer: array<byte>, offset: nat, count: nat) returns (read: nat)
      requires offset + count <= buffer.Length
      modifies `pending, buffer
      ensures read <= count && read <= |old(pending)|
      ensures read == 0 <==> count == 0 || old(pending) == []
      ensures pending == old(pending)[read..]
      ensures buffer[..] == old(buffer[..offset]) + old(pending)[..read] + old(buffer[offset + read..])
    {
      if count == 0 || pending == [] {
        return 0;
      }
      read :| 1 <= read && read <= count && read <= |pending|;
      forall i | 0 <= i < read {
        buffer[offset + i] := pending[i];
      }
      pending := pending[read..];
    }
  }

  /** `ReadExactlyAsync`: false at the end of the stream. */
  method ReadExactly(stream: ByteStream, buffer: array<byte>, offset: nat, count: nat) returns (ok: bool)
    requires offset + count <= buffer.Length
    modifies stream, buffer
    ensures ok <==> count <= |old(stream.pending)|
    ensures ok ==>
              && stream.pending == old(stream.pending)[count..]
              && buffer[..] == old(buffer[..offset]) + old(stream.pending)[..count] + old(buffer[offset + count..])
  {
    ghost var all, before := stream.pending, buffer[..];
    var at, left := offset, count;
    while left > 0
      invariant offset <= at && 0 <= left && at + left == offset + count && at - offset <= |all|
      invariant |before| == buffer.Length
      invariant stream.pending == all[at - offset..]
      invariant buffer[..] == before[..offset] + all[..at - offset] + before[at..]
      decreases left
    {
      ghost var was, p := buffer[..], stream.pending;
      var read := stream.Read(buffer, at, left);
      if read == 0 {
        return false;
      }
      Glued(before, all, offset, at, read);
      at := at + read;
      left := left - read;
    }
    ok := true;
  }

  lemma Glued(before: seq<byte>, all: seq<byte>, offset: nat, at: nat, read: nat)
    requires offset <= at && at + read <= |before| && at - offset + read <= |all|
    ensures var b := before[..offset] + all[..at - offset] + before[at..];
            b[..at] + all[at - offset..][..read] + b[at + read..] ==
            before[..offset] + all[..at + read - offset] + before[at + read..]
    ensures all[at - offset..][read..] == all[at + read - offset..]
  {
    assert all[..at - offset] + all[at - offset..][..read] == all[..at + read - offset];
  }

  /** The first message of a byte string and what follows it. */
  function FirstMessage(bytes: seq<byte>): Option<(seq<byte>, seq<byte>)> {
    if |bytes| < 4 || |bytes| < 4 + 4 * bytes[0] as nat then None
    else Some((bytes[..4 + 4 * bytes[0] as nat], bytes[4 + 4 * bytes[0] as nat..]))
  }

  /** `Message.FromStreamAsync`: reads exactly one message, however the stream chops it up. */
  method FromStream(stream: ByteStream) returns (r: Option<seq<byte>>)
    modifies stream
    ensures r.Some? <==> FirstMessage(old(stream.pending)).Some?
    ensures r.Some? ==> FirstMessage(old(stream.pending)) == Some((r.value, stream.pending))
  {
    hide CSharpParse, Decode;
    ghost var all := stream.pending;
    var head := new byte[4](_ => 0);
    var ok := ReadExactly(stream, head, 0, 4);
    if !ok {
      return None;
    }
    assert head[..] == all[..4];
    CSharpReads(head[..], 0);
    assert head[..][0..4] == head[..];
    var header := CSharpParse(head[..], 0);
    ParsedLength(head[..]);
    var rest := 4 * header.len;
    var buffer := new byte[4 + rest](_ => 0);
    ok := ReadExactly(stream, buffer, 4, rest);
    if !ok {
      return None;
    }
    forall i | 0 <= i < 4 {
      buffer[i] := head[i];
    }
    assert buffer[..] == all[..4] + all[4..][..rest] == all[..4 + rest];
    r := Some(buffer[..]);
  }

  lemma ParsedLength(b: seq<byte>)
    requires |b| == 4
    ensures Decode(b).len == b[0]
  {
  }

  function Concat(ms: seq<seq<byte>>): seq<byte> {
    if ms == [] then [] else ms[0] + Concat(ms[1..])
  }

  lemma FirstOfConcat(ms: seq<seq<byte>>)
    requires ms != [] && IsMessage(ms[0])
    ensures FirstMessage(Concat(ms)) == Some((ms[0], Concat(ms[1..])))
  {
    var all := Concat(ms);
    assert all[0] == ms[0][0];
    assert all[..|ms[0]|] == ms[0] && all[|ms[0]|..] == Concat(ms[1..]);
  }

  /**
    Framing: whatever messages were written to a stream, and however the stream
    cuts them into reads, reading as many messages gives exactly those messages
    and leaves nothing over.
   */
  method ReadMessages(stream: ByteStream, ghost ms: seq<seq<byte>>, n: nat) returns (r: seq<seq<byte>>)
    requires n == |ms| && (forall i :: 0 <= i < |ms| ==> IsMessage(ms[i])) && stream.pending == Concat(ms)
    modifies stream
    ensures r == ms && stream.pending == []
  {
    hide FirstMessage, IsMessage;
    r := [];
    for i := 0 to n
      invariant r == ms[..i] && stream.pending == Concat(ms[i..])
    {
      FirstOfConcat(ms[i..]);
      var m := FromStream(stream);
      assert ms[i..][1..] == ms[i + 1..];
      r := r + [m.value];
    }
  }
}
