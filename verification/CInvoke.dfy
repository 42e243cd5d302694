/**
  What the emitted C code means for its callers and its peers: stored structs
  are understood by Python, and a generated invoke function running in memory
  is the invoke function of `Server`.
 */
module CInvoke {
  import opened BitString
  import opened Results
  import opened Wire
  import opened Types
  import opened Interop
  import opened Runs
  import opened Encoding
  import opened PythonCodec
  import opened PythonPayload
  import opened Framing
  import opened Server
  import opened CHelpers
  import opened Layout
  import opened ZeroCopy
  import opened Overlap
  import opened Replies
  import opened EndToEnd

  // ---------------------------------------------------------------- Emission in a window of memory

  lemma OneIsAll(d: Dialect, b: seq<bool>, t: Ty, v: Val, p: nat)
    requires Writer(d)
    ensures EmitAll(d, b, [t], [v], p) == EmitOne(d, b, t, v, p)
  {
    hide EmitOne, Write, EndOf;
    assert [t][1..] == [] && [v][1..] == [];
    EmitCons(d, b, [t], [v], p);
    var r := EmitOne(d, b, t, v, p);
    if r.Some? {
      NothingEmitted(d, r.value.0, r.value.1);
    }
  }

  /** Storing into a window of memory changes the window alone, and as if there was nothing around it. */
  lemma EmitWindow(d: Dialect, a: seq<bool>, b: seq<bool>, z: seq<bool>, ts: seq<Ty>, vs: seq<Val>)
    requires Writer(d) && |a| % 8 == 0 && EmitAll(d, b, ts, vs, 0).Some?
    ensures var (b', e) := EmitAll(d, b, ts, vs, 0).value;
            EmitAll(d, a + b + z, ts, vs, |a|) == Some((a + b' + z, |a| + e))
  {
    hide Put, End;
    PutWindow(d, a, b, z, TokensAll(ts), LeavesAll(ts, vs), 0);
  }

  lemma ThreeParts(mem: seq<byte>, lo: nat, hi: nat)
    requires lo <= hi <= |mem|
    ensures BitsOf(mem) == BitsOf(mem[..lo]) + BitsOf(mem[lo..hi]) + BitsOf(mem[hi..])
  {
    hide BitsOf;
    assert mem == mem[..lo] + mem[lo..hi] + mem[hi..];
    BitsOfAppend(mem[..lo] + mem[lo..hi], mem[hi..]);
    BitsOfAppend(mem[..lo], mem[lo..hi]);
  }

  /** What storing into `mem` means for the bytes from `lo` to `hi` and for all others. */
  lemma StoredInWindow(mem: seq<byte>, mem': seq<byte>, t: Ty, v: Val, lo: nat, hi: nat, dest: nat)
    requires lo <= dest <= hi <= |mem| == |mem'|
    requires EmitOne(EMITTED_C, BitsOf(mem), t, v, 8 * lo) == Some((BitsOf(mem'), 8 * dest))
    ensures mem'[..lo] == mem[..lo] && mem'[hi..] == mem[hi..]
    ensures EmitAll(EMITTED_C, BitsOf(mem[lo..hi]), [t], [v], 0) == Some((BitsOf(mem'[lo..hi]), 8 * (dest - lo)))
  {
    hide BitsOf, EmitOne, EmitAll;
    var a, b, z := BitsOf(mem[..lo]), BitsOf(mem[lo..hi]), BitsOf(mem[hi..]);
    ThreeParts(mem, lo, hi);
    ThreeParts(mem', lo, hi);
    OneIsAll(EMITTED_C, BitsOf(mem), t, v, 8 * lo);
    FitsWindow(EMITTED_C, a, b, z, t, v);
    EmitWindow(EMITTED_C, a, b, z, [t], [v]);
    var b' := EmitAll(EMITTED_C, b, [t], [v], 0).value.0;
    PartsEqual(a, b', z, BitsOf(mem'[..lo]), BitsOf(mem'[lo..hi]), BitsOf(mem'[hi..]));
    BitsOfInjective(mem[..lo], mem'[..lo]);
    BitsOfInjective(mem[hi..], mem'[hi..]);
  }

  lemma PartsEqual(a: seq<bool>, b: seq<bool>, c: seq<bool>, a': seq<bool>, b': seq<bool>, c': seq<bool>)
    requires |a| == |a'| && |b| == |b'| && a + b + c == a' + b' + c'
    ensures a == a' && b == b' && c == c'
  {
    var s := a + b + c;
    assert a == s[..|a|] && a' == s[..|a|];
    assert b == s[|a|..|a| + |b|] && b' == s[|a|..|a| + |b|];
    assert c == s[|a| + |b|..] && c' == s[|a| + |b|..];
  }

  lemma FitsWindow(d: Dialect, a: seq<bool>, b: seq<bool>, z: seq<bool>, t: Ty, v: Val)
    requires Writer(d) && |a| % 8 == 0
    requires var r := EmitAll(d, a + b + z, [t], [v], |a|); r.Some? && r.value.1 <= |a| + |b|
    ensures EmitAll(d, b, [t], [v], 0).Some?
  {
    EndShift(d, TokensAll([t]), LeavesAll([t], [v]), |a|, 0);
  }

  // ---------------------------------------------------------------- Stored structs are understood

  /**
    Compiler correctness. Whatever `T_store` left in memory from byte `dest` to
    `dest'` is the encoded length of the value, Python unpacks it to that value
    whatever bytes follow, the emitted load gets it back, and no byte outside
    has changed.
   */
  lemma StoredIsUnderstood(mem: seq<byte>, mem': seq<byte>, t: Ty, v: Val, dest: nat, dest': nat, trailing: seq<byte>)
    requires dest <= dest' <= |mem| == |mem'|
    requires EmitOne(EMITTED_C, BitsOf(mem), t, v, 8 * dest) == Some((BitsOf(mem'), 8 * dest'))
    requires !t.TBit? && PythonReadsC([t])
    ensures ConformAll([t], [v]) && 8 * (dest' - dest) == EndOf(EMITTED_C, [t], [v], 0)
    ensures Unpacked([t], mem'[dest..dest'] + trailing) == Some([v])
    ensures Read(EMITTED_C, BitsOf(mem'), t, 8 * dest) == Some((v, 8 * dest'))
    ensures mem'[..dest] == mem[..dest] && mem'[dest'..] == mem[dest'..]
  {
    hide BitsOf, EmitOne, ReadAll, Write, EndOf, Read, CompatibleTypes, PythonReadsC, CSharpReadsC;
    FromCIff([t]);
    StoredInWindow(mem, mem', t, v, dest, dest', dest');
    var bytes := mem'[dest..dest'];
    var e := EndOf(EMITTED_C, [t], [v], 0);
    BitsOfAppend(bytes, trailing);
    assert (BitsOf(bytes) + BitsOf(trailing))[..e] == BitsOf(bytes)[..e];
    assert CompatibleTypes(EMITTED_C, PYTHON_UNPACK, [t]);
    CompatibleMeans(EMITTED_C, PYTHON_UNPACK, [t]);
    ReadOfWrite(EMITTED_C, PYTHON_UNPACK, BitsOf(mem[dest..dest']), [t], [v], 0, 0, BitsOf(bytes + trailing));
    LoadOfStore(mem[dest..dest'], mem', t, v, dest, dest');
  }

  /**
    Every bit of memory after a store: the fields in order, structs beginning and
    finishing at byte boundaries, padding as it was, and nothing else changed.
   */
  lemma StoredIsLaid(mem: seq<byte>, mem': seq<byte>, t: Ty, v: Val, dest: nat, dest': nat)
    requires EmitOne(EMITTED_C, BitsOf(mem), t, v, 8 * dest) == Some((BitsOf(mem'), 8 * dest'))
    ensures var l := Laid(BitsOf(mem), t, v, 8 * dest, true, true);
            && |mem'| == |mem| && dest <= dest' <= |mem| && 8 * (dest' - dest) == |l|
            && BitsOf(mem') == BitsOf(mem)[..8 * dest] + l + BitsOf(mem)[8 * dest'..]
  {
    hide BitsOf, EmitOne, Laid;
    EmitIsLaid(EMITTED_C, BitsOf(mem), t, v, 8 * dest);
  }

  lemma CompatibleMeans(w: Dialect, r: Dialect, ts: seq<Ty>)
    ensures CompatibleTypes(w, r, ts) <==> Compatible(w, r, TokensAll(ts), 0 % 8, 0 % 8)
  {
  }

  lemma LoadOfStore(was: seq<byte>, mem: seq<byte>, t: Ty, v: Val, dest: nat, dest': nat)
    requires !t.TBit? && dest <= dest' <= |mem| && |was| == dest' - dest
    requires EmitAll(EMITTED_C, BitsOf(was), [t], [v], 0) == Some((BitsOf(mem[dest..dest']), 8 * |was|))
    ensures Read(EMITTED_C, BitsOf(mem), t, 8 * dest) == Some((v, 8 * dest'))
  {
    hide BitsOf, ReadAll, Write, EndOf, Compatible, TokensAll, LeavesAll, Read;
    var bytes := mem[dest..dest'];
    SelfCompatible(EMITTED_C, TokensAll([t]), 0);
    ReadOfWrite(EMITTED_C, EMITTED_C, BitsOf(was), [t], [v], 0, 0, BitsOf(bytes));
    BitsOfSlice(mem, dest, dest');
    ReadAllWindow(EMITTED_C, BitsOf(mem), 8 * dest, 8 * dest', [t], 0);
    ReadOne(EMITTED_C, BitsOf(mem), t, 8 * dest);
    EndsAligned(BitsOf(mem), t, 8 * dest);
    SamePosition(Read(EMITTED_C, BitsOf(mem), t, 8 * dest).value.1, 8 * dest');
  }

  /** The emitted loads leave the pointer on a byte boundary. */
  lemma EndsAligned(b: seq<bool>, t: Ty, u: nat)
    requires !t.TBit? && Read(EMITTED_C, b, t, u).Some?
    ensures Read(EMITTED_C, b, t, u).value.1 % 8 == 0
  {
    hide Align, ReadLeaf, ReadAll, Value, Values, Read;
    match t
    case TNum(k) => NumEndsAligned(b, k, u);
    case TList(_) => SequenceEndsAligned(b, t, u);
    case TBlob => SequenceEndsAligned(b, t, u);
    case TStruct(ms) => ReadStruct(EMITTED_C, b, ms, u);
  }

  lemma NumEndsAligned(b: seq<bool>, k: Num, u: nat)
    requires Read(EMITTED_C, b, TNum(k), u).Some?
    ensures Read(EMITTED_C, b, TNum(k), u).value.1 % 8 == 0
  {
    hide Align, NatOf, Value;
  }

  lemma SequenceEndsAligned(b: seq<bool>, t: Ty, u: nat)
    requires (t.TList? || t.TBlob?) && Read(EMITTED_C, b, t, u).Some?
    ensures Read(EMITTED_C, b, t, u).value.1 % 8 == 0
  {
    hide Align, Read, NatOf, ReadItems, WholePart, Values, Tokens;
    ReadSequence(EMITTED_C, b, t, u);
  }

  lemma ReadOne(d: Dialect, b: seq<bool>, t: Ty, u: nat)
    ensures ReadAll(d, b, [t], u) ==
            (var r := Read(d, b, t, u); if r.None? then None else Some(([r.value.0], r.value.1)))
  {
    assert [t][1..] == [];
    var r := Read(d, b, t, u);
    if r.Some? {
      assert [r.value.0] + [] == [r.value.0];
    }
  }

  /** Python and the emitted C write the same bytes into equal buffers, for all values of argument types. */
  lemma SameBytes(b: seq<bool>, ts: seq<Ty>, vs: seq<Val>)
    requires Arguments(ts) && ConformAll(ts, vs) && |b| % 8 == 0 && EndOf(PYTHON_PACK, ts, vs, 0) <= |b|
    ensures Align(EndOf(PYTHON_PACK, ts, vs, 0)) == Align(EndOf(EMITTED_C, ts, vs, 0)) <= |b|
    ensures Write(PYTHON_PACK, b, ts, vs, 0) == Write(EMITTED_C, b, ts, vs, 0)
  {
    ArgumentsCompatible(ts, 0, 0);
    WritersAgree(PYTHON_PACK, EMITTED_C, b, TokensAll(ts), LeavesAll(ts, vs), 0, 0);
  }

  // ---------------------------------------------------------------- Generated invoke functions

  /** A user's handler: from memory and arguments to memory and result. */
  type Handler = (seq<byte>, seq<CVal>) -> (seq<byte>, CVal)

  /**
    What a handler has to do: compute the procedure, with a result in memory that
    fits the buffer of `n` bytes at `tx`. Where its lists lie is its own business.
   */
  ghost predicate Implements(h: Handler, p: Procedure, size: nat, tx: nat, n: nat)
    requires |p.result| <= 1
  {
    forall mem, args :: |mem| == size && InMemoryAll(size, p.params, args) ==>
      var (mem', ret) := h(mem, args);
      && |mem'| == size
      && (p.result != [] ==>
            && InMemory(size, p.result[0], ret) && After(size, p.result[0], ret, 8 * tx) <= 8 * (tx + n)
            && p.body(DenoteAll(mem, p.params, args)) == [Denote(mem', p.result[0], ret)])
  }

  /** The lists of the result were allocated with the allocator that the invoke function hands to the handler. */
  ghost predicate Offered(t: Ty, ret: CVal, tx: nat) {
    match t
    case TList(_) => ret.CSlice? && ret.ptr == tx + 2
    case TBlob => ret.CSlice? && ret.ptr == tx + 2
    case TStruct(ms) => ret.CStruct? && Allocated(ms, ret.fields, tx + ReplyDistance(ms))
    case _ => true
  }

  /** A check on the result type alone: see `StoresFaithfullyIff`. */
  predicate Repliable(t: Ty) {
    t.TStruct? ==> Spacious(t.members, ReplyDistance(t.members))
  }

  /** The result is a struct that `T_init` made with that allocator, with lists that were refused. */
  ghost predicate PartlyOffered(t: Ty, ret: CVal, tx: nat) {
    && t.TStruct? && ret.CStruct?
    && exists template: seq<CVal>, len: nat :: MadeByInit(t.members, ret.fields, template, tx, len)
  }

  ghost predicate MadeByInit(ms: seq<Ty>, fields: seq<CVal>, template: seq<CVal>, tx: nat, len: nat) {
    ProperAll(ms, template) && fields == Init(ms, template, tx + ReplyDistance(ms), len)
  }

  /** The result is stored as it is: see `StoresFaithfullyIff` and `SurvivesRefusalsIff`; or nothing is in its way. */
  ghost predicate Safe(size: nat, t: Ty, ret: CVal, tx: nat)
    requires InMemory(size, t, ret)
  {
    || (Offered(t, ret, tx) && Repliable(t))
    || (PartlyOffered(t, ret, tx) && Roomy(t.members, ReplyDistance(t.members)))
    || Clear(size, t, ret, 8 * tx, tx)
  }

  /** A result that was allocated as offered is stored as it was, when its type is repliable. */
  lemma OfferedIsStored(mem: seq<byte>, t: Ty, ret: CVal, tx: nat)
    requires InMemory(|mem|, t, ret) && After(|mem|, t, ret, 8 * tx) <= 8 * |mem|
    requires Offered(t, ret, tx) && Repliable(t)
    ensures Turn(mem, t, ret, 8 * tx) == Denote(mem, t, ret)
  {
    hide Allocated, Missing, ReplyDistance, Turn, Denote;
    if t.TStruct? {
      InPlaceStoreIsClear(|mem|, t.members, ret.fields, tx, ReplyDistance(t.members), tx);
    }
    TurnIsDenote(mem, t, ret, 8 * tx, tx);
  }

  /** Even when lists were refused, if the type is roomy. */
  lemma PartlyOfferedIsStored(mem: seq<byte>, t: Ty, ret: CVal, tx: nat)
    requires InMemory(|mem|, t, ret) && After(|mem|, t, ret, 8 * tx) <= 8 * |mem|
    requires PartlyOffered(t, ret, tx) && Roomy(t.members, ReplyDistance(t.members))
    ensures Turn(mem, t, ret, 8 * tx) == Denote(mem, t, ret)
  {
    hide Roomy, ReplyDistance, Turn, Denote, SlicesAll, LengthsAll, DataStarts, TokensAll, Lists, Init, Given,
         OutOfTheWay, Behind, At, Apart, ProperAll, InMemoryAll, AfterAll, ClearAll, Kept, Align;
    var ms, delta := t.members, ReplyDistance(t.members);
    var template: seq<CVal>, len: nat :| MadeByInit(ms, ret.fields, template, tx, len);
    RoomyIsOut(ms, template, tx, delta, len);
    GivenApart(ms, template, tx, tx + delta, len);
    BehindIsOut(ms, SlicesAll(ms, ret.fields), LengthsAll(ms, template), Given(ms, template, tx + delta, len), tx);
    TreeIsFlatAll(|mem|, ms, ret.fields, 8 * tx, tx);
    WholeBytesAligned(tx);
    TurnIsDenote(mem, t, ret, 8 * tx, tx);
  }

  lemma SafeIsStored(mem: seq<byte>, t: Ty, ret: CVal, tx: nat)
    requires InMemory(|mem|, t, ret) && After(|mem|, t, ret, 8 * tx) <= 8 * |mem| && Safe(|mem|, t, ret, tx)
    ensures Turn(mem, t, ret, 8 * tx) == Denote(mem, t, ret)
  {
    hide Offered, Repliable, PartlyOffered, Roomy, Clear, Turn, Denote, InMemory, After;
    if Offered(t, ret, tx) && Repliable(t) {
      OfferedIsStored(mem, t, ret, tx);
    } else if Clear(|mem|, t, ret, 8 * tx, tx) {
      TurnIsDenote(mem, t, ret, 8 * tx, tx);
    } else {
      PartlyOfferedIsStored(mem, t, ret, tx);
    }
  }

  /**
    The handler was called on memory `mem` with arguments that denote `vs` there,
    in the order of the parameters, left `handled` and returned `ret`.
   */
  ghost predicate Ran(h: Handler, p: Procedure, mem: seq<byte>, vs: seq<Val>, handled: seq<byte>, ret: CVal) {
    exists args: seq<CVal> ::
      InMemoryAll(|mem|, p.params, args) && DenoteAll(mem, p.params, args) == vs && h(mem, args) == (handled, ret)
  }

  /** The handler was called with exactly the arguments that the request holds. */
  ghost predicate RanOn(h: Handler, p: Procedure, mem: seq<byte>, rx: seq<byte>, handled: seq<byte>, ret: CVal) {
    var g := ReadAll(EMITTED_C, BitsOf(rx), p.params, 0);
    g.Some? && Ran(h, p, mem, g.value.0, handled, ret)
  }

  /** Every result of the handler is safe. */
  ghost predicate Careful(h: Handler, p: Procedure, size: nat, tx: nat) {
    forall mem, args :: |mem| == size && InMemoryAll(size, p.params, args) && p.result != [] ==>
      var (_, ret) := h(mem, args);
      InMemory(size, p.result[0], ret) ==> Safe(size, p.result[0], ret, tx)
  }

  /** What the generator and the C code ask of a procedure and its request; bounds are not checked. */
  ghost predicate Invocable(p: Procedure, rx: seq<byte>) {
    && |p.result| <= 1 && (p.result != [] ==> !p.result[0].TBit?)
    && (forall i :: 0 <= i < |p.params| ==> !p.params[i].TBit?)
    && ReadAll(EMITTED_C, BitsOf(rx), p.params, 0).Some?
  }

  /**
    What one invocation gave, with a result or without: the handler ran on the
    arguments of the request, and its result `ret` ends inside the memory. Whatever
    memory `handled` the handler had left, the payload is the encoding of the result
    with each list as it is when its turn comes; it is the payload that the invoke
    function of `Server` prescribes over what the handler left, when the result is
    safe.
   */
  ghost predicate Gave(inv: Invoked, id: nat, p: Procedure, h: Handler, mem: seq<byte>, rx: seq<byte>,
                       handled: seq<byte>, payload: seq<byte>, tx: nat, ret: CVal)
  {
    && RanOn(h, p, mem, rx, handled, ret)
    && (p.result != [] ==>
          && InMemory(|handled|, p.result[0], ret) && After(|handled|, p.result[0], ret, 8 * tx) <= 8 * |handled|
          && inv == StoreResult(id, payload, p.result, [Turn(handled, p.result[0], ret, 8 * tx)]))
    && (p.result == [] || Safe(|handled|, p.result[0], ret, tx) ==> inv == Invoke(id, p, rx, payload))
  }

  /**
    `invoke_*`, on memory that holds both messages: load every argument, call the
    handler, store its result `ret`. No byte outside the payload is written.
   */
  method InvokeInMemory(mem: array<byte>, rx: nat, rxLen: nat, tx: nat, n: nat, id: nat, p: Procedure, h: Handler)
    returns (wlen: nat, ghost handled: seq<byte>, ghost ret: CVal)
    requires rx + rxLen <= mem.Length && tx + n <= mem.Length
    requires Invocable(p, mem[rx..rx + rxLen]) && Implements(h, p, mem.Length, tx, n)
    modifies mem
    ensures |handled| == mem.Length && mem[..tx] == handled[..tx] && mem[tx + n..] == handled[tx + n..] && wlen < 256
    ensures Gave(Invoked(id, wlen, mem[tx..tx + n]), id, p, h, old(mem[..]), old(mem[rx..rx + rxLen]), handled,
                 handled[tx..tx + n], tx, ret)
  {
    hide BitsOf, ReadAll, EmitOne, EmitAll, Denote, DenoteAll, InMemory, After, BytesToWords, BytesOf, Turn, Safe,
         StoreResult;
    ghost var was := mem[..];
    ghost var window := mem[rx..rx + rxLen];
    assert was[rx..rx + rxLen] == window;
    BitsOfSlice(was, rx, rx + rxLen);
    ReadAllWindow(EMITTED_C, BitsOf(was), 8 * rx, 8 * (rx + rxLen), p.params, 0);
    var args, _ := LoadArguments(mem, rx, p.params);
    var (mem', result) := h(mem[..], args);
    forall i | 0 <= i < mem.Length {
      mem[i] := mem'[i];
    }
    assert mem[..] == mem';
    handled, ret, wlen := mem', result, 0;
    assert Ran(h, p, was, DenoteAll(was, p.params, args), handled, ret);
    if p.result != [] {
      var t := p.result[0];
      assert p.result == [t];
      var dest := StoreMember(mem, tx, t, result);
      StoredIsInvoked(id, t, handled, mem[..], tx, n, dest, ret);
      assert mem[..][tx..tx + n] == mem[tx..tx + n] && mem[..][..tx] == mem[..tx] && mem[..][tx + n..] == mem[tx + n..];
      wlen := BytesToWords(dest - tx);
      if Safe(|handled|, t, ret, tx) {
        SafeIsStored(handled, t, ret, tx);
      }
    }
  }

  lemma StoredIsInvoked(id: nat, t: Ty, mem: seq<byte>, mem': seq<byte>, tx: nat, n: nat, dest: nat, ret: CVal)
    requires InMemory(|mem|, t, ret) && |mem'| == |mem| && tx + n <= |mem|
    requires After(|mem|, t, ret, 8 * tx) <= 8 * (tx + n)
    requires EmitOne(EMITTED_C, BitsOf(mem), t, Turn(mem, t, ret, 8 * tx), 8 * tx) == Some((BitsOf(mem'), 8 * dest))
    ensures tx <= dest && mem'[..tx] == mem[..tx] && mem'[tx + n..] == mem[tx + n..]
    ensures StoreResult(id, mem[tx..tx + n], [t], [Turn(mem, t, ret, 8 * tx)]) ==
            Invoked(id, BytesToWords(dest - tx), mem'[tx..tx + n])
  {
    hide BitsOf, EmitOne, EmitAll, Turn, InMemory, After, BytesToWords, BytesOf;
    var v := Turn(mem, t, ret, 8 * tx);
    StoreLands(mem, mem', t, tx, n, dest, ret);
    StoredInWindow(mem, mem', t, v, tx, tx + n, dest);
    WholeBytesAligned(dest - tx);
    BytesOfBits(mem'[tx..tx + n]);
  }

  /** A store ends where `After` says. */
  lemma StoreLands(mem: seq<byte>, mem': seq<byte>, t: Ty, tx: nat, n: nat, dest: nat, c: CVal)
    requires |mem| == |mem'| && InMemory(|mem|, t, c) && tx + n <= |mem|
    requires After(|mem|, t, c, 8 * tx) <= 8 * (tx + n)
    requires EmitOne(EMITTED_C, BitsOf(mem), t, Turn(mem, t, c, 8 * tx), 8 * tx) == Some((BitsOf(mem'), 8 * dest))
    ensures tx <= dest <= tx + n
  {
    hide BitsOf, Turn, InMemory, After, Put, Leaves;
    TurnAfter(mem, t, c, 8 * tx);
  }

  // ---------------------------------------------------------------- The server in memory

  /** The handlers implement the procedures, and the request is one that the C code can load. */
  ghost predicate Served(procs: map<nat, Procedure>, handlers: map<nat, Handler>, rx: seq<byte>, size: nat, tx: nat,
                         n: nat) {
    && procs.Keys == handlers.Keys
    && forall id: nat :: id in procs ==>
         && id < 4096 && |procs[id].result| <= 1
         && (n >= 4 ==> Implements(handlers[id], procs[id], size, tx + 4, n - 4))
         && (|rx| >= 4 && Decode(rx).rpcId == id ==> Invocable(procs[id], rx[4..]))
  }

  /** The switch that gives what one invocation gave. */
  ghost function Once(inv: Invoked): (sw: Switch)
    requires inv.rpcId < 4096 && inv.wlen < 256
    ensures Sane(sw)
  {
    (id, rx, tx) => if |tx| == |inv.payload| then inv else Invoked(0, 0, tx)
  }

  /** What `compost_invoke_switch` gave: an unknown id is reported and nothing runs; any other is invoked. */
  ghost predicate Switched(procs: map<nat, Procedure>, handlers: map<nat, Handler>, inv: Invoked, id: nat,
                           mem: seq<byte>, rx: seq<byte>, handled: seq<byte>, payload: seq<byte>, tx: nat,
                           result: CVal)
    requires procs.Keys == handlers.Keys
  {
    if id !in procs then handled == mem && inv == Invoked(UNKNOWN_MSG, 0, payload)
    else Gave(inv, id, procs[id], handlers[id], mem, rx, handled, payload, tx, result)
  }

  /** `compost_invoke_switch` in memory */
  method SwitchInMemory(mem: array<byte>, rx: nat, rxLen: nat, tx: nat, n: nat, id: nat, procs: map<nat, Procedure>,
                        handlers: map<nat, Handler>)
    returns (rpcId: nat, wlen: nat, ghost handled: seq<byte>, ghost result: CVal)
    requires rx + rxLen <= mem.Length && tx + n <= mem.Length && procs.Keys == handlers.Keys
    requires id in procs ==>
               && id < 4096 && Invocable(procs[id], mem[rx..rx + rxLen])
               && Implements(handlers[id], procs[id], mem.Length, tx, n)
    modifies mem
    ensures |handled| == mem.Length && mem[..tx] == handled[..tx] && mem[tx + n..] == handled[tx + n..]
    ensures wlen < 256 && rpcId < 4096
    ensures Switched(procs, handlers, Invoked(rpcId, wlen, mem[tx..tx + n]), id, old(mem[..]), old(mem[rx..rx + rxLen]),
                     handled, handled[tx..tx + n], tx, result)
  {
    hide Gave, Invocable, Implements;
    if id in procs {
      rpcId := id;
      wlen, handled, result := InvokeInMemory(mem, rx, rxLen, tx, n, id, procs[id], handlers[id]);
    } else {
      rpcId, wlen, handled, result := UNKNOWN_MSG, 0, mem[..], CNum(0);
      assert mem[..][tx..tx + n] == mem[tx..tx + n];
    }
  }

  /** What the switch gave for request `msg` over transmit buffer `buf`. */
  ghost predicate Dispatched(procs: map<nat, Procedure>, handlers: map<nat, Handler>, mem: seq<byte>, msg: seq<byte>,
                             handled: seq<byte>, buf: seq<byte>, sw: Switch, result: CVal, tx: nat)
    requires |msg| >= 4 && |buf| >= 4 && procs.Keys == handlers.Keys
  {
    var id := Decode(msg).rpcId;
    Switched(procs, handlers, sw(id, msg[4..], buf[4..]), id, mem, msg[4..], handled, buf[4..], tx + 4, result)
  }

  /**
    `compost_msg_process` with the generated switch, on memory that holds both
    messages, the handlers' data and the slices. It is the function `Process` over
    the transmit buffer as the handler left it, and the switch that it follows
    serves the request whenever the handler's result is safe.
   */
  method ProcessInMemory(mem: array<byte>, rx: nat, rxLen: nat, tx: nat, n: nat, procs: map<nat, Procedure>,
                         handlers: map<nat, Handler>)
    returns (ret: int, ghost sw: Switch, ghost handled: seq<byte>, ghost result: CVal)
    requires rx + rxLen <= mem.Length && tx + n <= mem.Length && procs.Keys == handlers.Keys
    requires Served(procs, handlers, mem[rx..rx + rxLen], mem.Length, tx, n)
    modifies mem
    ensures |handled| == mem.Length && mem[..tx] == handled[..tx] && mem[tx + n..] == handled[tx + n..]
    ensures Sane(sw) && (ret, mem[tx..tx + n]) == Process(handled[tx..tx + n], old(mem[rx..rx + rxLen]), sw)
    ensures ret < 0 ==> mem[..] == handled == old(mem[..])
    ensures ret >= 0 ==> rxLen >= 4 && n >= 4
    ensures ret >= 0 ==>
              Dispatched(procs, handlers, old(mem[..]), old(mem[rx..rx + rxLen]), handled, handled[tx..tx + n], sw,
                         result, tx)
  {
    hide Encode, Decode, CLoad, BitsOf, Invoke, StoreResult, Safe, Turn, InMemory, After, Implements, Invocable, RanOn,
         Process, Once, Served, Switched;
    ghost var msg := mem[rx..rx + rxLen];
    handled, result, sw := mem[..], CNum(0), Once(Invoked(0, 0, []));
    ProcessIs(mem[tx..tx + n], msg, sw);
    if rxLen < 4 || n < 4 {
      assert mem[..][tx..tx + n] == mem[tx..tx + n];
      return EINVAL, sw, handled, result;
    }
    var head := mem[rx..rx + rxLen];
    CReads(head);
    var loaded := CLoad(head);
    assert mem[..][tx..tx + n] == mem[tx..tx + n];
    if loaded.None? {
      return EFLAGS, sw, handled, result;
    }
    var h := loaded.value;
    if h.txn != 0 && h.resp {
      return ETXN, sw, handled, result;
    }
    if h.rpcId in procs {
      ServedRequest(procs, handlers, msg, mem.Length, tx, n);
    }
    assert mem[rx + 4..rx + 4 + (rxLen - 4)] == msg[4..];
    var rpcId, wlen;
    rpcId, wlen, handled, result := SwitchInMemory(mem, rx + 4, rxLen - 4, tx + 4, n - 4, h.rpcId, procs, handlers);
    ghost var before := mem[..];
    ghost var payload := mem[tx + 4..tx + n];
    WindowParts(handled, before, tx, n);
    sw := Once(Invoked(rpcId, wlen, payload));
    OnceGives(Invoked(rpcId, wlen, payload), h.rpcId, msg[4..], handled[tx..tx + n][4..]);
    ProcessIs(handled[tx..tx + n], msg, sw);
    ret := StoreReply(mem, tx, n, Header(wlen, h.txn, true, rpcId));
  }

  /** The end of `compost_msg_process`: the header, when there is something to send, and the size of the message. */
  method StoreReply(mem: array<byte>, tx: nat, n: nat, h: Header) returns (ret: int)
    requires tx + n <= mem.Length && n >= 4 && WellFormed(h)
    modifies mem
    ensures mem[..tx] == old(mem[..tx]) && mem[tx + n..] == old(mem[tx + n..])
    ensures h.txn != 0 || h.len != 0 ==> ret == 4 + 4 * h.len && mem[tx..tx + n] == Encode(h) + old(mem[tx + 4..tx + n])
    ensures h.txn == 0 && h.len == 0 ==> ret == 0 && mem[tx..tx + n] == old(mem[tx..tx + n])
  {
    hide Encode;
    ret := 0;
    if h.txn != 0 || h.len != 0 {
      ghost var before := mem[..];
      assert mem[..tx] == before[..tx] && mem[tx + 4..] == before[tx + 4..];
      assert mem[tx + 4..tx + n] == before[tx + 4..tx + n];
      assert mem[tx + n..] == before[tx + n..];
      CStore(mem, tx, h);
      HeaderInWindow(before, mem[..], tx, n, Encode(h));
      assert mem[..][tx..tx + n] == mem[tx..tx + n] && mem[..][..tx] == mem[..tx] && mem[..][tx + n..] == mem[tx + n..];
      ret := 4 + 4 * h.len;
    }
  }

  /**
    A whole call in memory: Python packs a request, the server runs on it with
    handlers whose results are safe. The handler runs on exactly the arguments that
    were sent, and what Python unpacks from the transmit buffer is exactly what the
    procedure returns for them.
   */
  method ServePythonCall(mem: array<byte>, rx: nat, rxLen: nat, tx: nat, n: nat, procs: map<nat, Procedure>,
                         handlers: map<nat, Handler>, ghost id: nat, ghost txn: nat, ghost args: seq<Val>)
    returns (ret: int, ghost handled: seq<byte>, ghost result: CVal)
    requires rx + rxLen <= mem.Length && tx + n <= mem.Length && n >= 1024
    requires Served(procs, handlers, mem[rx..rx + rxLen], mem.Length, tx, n) && id in procs && 0 < txn < 256
    requires Arguments(procs[id].params) && PayloadOf(procs[id].params, args).Some?
    requires |PayloadOf(procs[id].params, args).value| <= 1020
    requires mem[rx..rx + rxLen] == Request(txn, id, PayloadOf(procs[id].params, args).value)
    requires PythonReadsC(procs[id].result) && Returns(procs[id], args)
    requires Careful(handlers[id], procs[id], mem.Length, tx + 4)
    modifies mem
    ensures Ran(handlers[id], procs[id], old(mem[..]), args, handled, result)
    ensures 4 <= ret <= n
    ensures PythonParse(mem[tx..tx + n][..ret]).0 == Header((ret - 4) / 4, txn, true, id)
    ensures Unpacked(procs[id].result, PythonParse(mem[tx..tx + n][..ret]).1) == Some(procs[id].body(args))
  {
    hide *;
    ghost var msg, was := mem[rx..rx + rxLen], mem[..];
    ghost var sw;
    InProcs(procs, handlers, msg, mem.Length, tx, n, id);
    RequestAccepted(txn, id, PayloadOf(procs[id].params, args).value);
    ret, sw, handled, result := ProcessInMemory(mem, rx, rxLen, tx, n, procs, handlers);
    ghost var buf := handled[tx..tx + n];
    AcceptedIsProcessed(buf, msg, sw);
    GaveSafely(procs, handlers, was, msg, handled, buf, sw, result, tx);
    RequestHolds(procs[id], id, txn, args);
    RanOnArguments(handlers[id], procs[id], was, msg[4..], handled, result, args);
    InvokeServes(sw, id, procs[id], msg[4..], buf[4..], args);
    RemoteCall(sw, procs[id], id, txn, args, buf);
  }

  lemma InProcs(procs: map<nat, Procedure>, handlers: map<nat, Handler>, rx: seq<byte>, size: nat, tx: nat, n: nat,
                id: nat)
    requires Served(procs, handlers, rx, size, tx, n) && id in procs
    ensures id < 4096 && procs.Keys == handlers.Keys && |procs[id].result| <= 1
  {
    hide Decode, Invocable, Implements;
  }

  lemma RequestAccepted(txn: nat, id: nat, payload: seq<byte>)
    requires 0 < txn < 256 && id < 4096 && |payload| <= 1020
    ensures var rx := Request(txn, id, payload); |rx| >= 4 && Accepted(rx) && Decode(rx).rpcId == id
  {
    hide Decode, Request;
    RequestIsAccepted(txn, id, payload);
  }

  lemma AcceptedIsProcessed(tx: seq<byte>, rx: seq<byte>, sw: Switch)
    requires Sane(sw) && |tx| >= 4 && Accepted(rx)
    ensures Process(tx, rx, sw).0 >= 0
  {
    ReplyDiscipline(tx, rx, sw);
  }

  /** A careful handler ran, so the switch did what `Invoke` does. */
  lemma GaveSafely(procs: map<nat, Procedure>, handlers: map<nat, Handler>, mem: seq<byte>, msg: seq<byte>,
                   handled: seq<byte>, buf: seq<byte>, sw: Switch, result: CVal, tx: nat)
    requires |msg| >= 4 && |buf| >= 4 && procs.Keys == handlers.Keys && Decode(msg).rpcId in procs && |handled| == |mem|
    requires Dispatched(procs, handlers, mem, msg, handled, buf, sw, result, tx)
    requires Careful(handlers[Decode(msg).rpcId], procs[Decode(msg).rpcId], |mem|, tx + 4)
    ensures var id := Decode(msg).rpcId;
            && RanOn(handlers[id], procs[id], mem, msg[4..], handled, result)
            && sw(id, msg[4..], buf[4..]) == Invoke(id, procs[id], msg[4..], buf[4..])
  {
    hide Decode, InMemory, After, InMemoryAll, Safe, Invoke, StoreResult, Turn;
  }

  /** The payload of the request reads as the arguments that were packed. */
  lemma RequestHolds(p: Procedure, id: nat, txn: nat, args: seq<Val>)
    requires id < 4096 && 0 < txn < 256 && Arguments(p.params)
    requires PayloadOf(p.params, args).Some? && |PayloadOf(p.params, args).value| <= 1020
    ensures var rx := Request(txn, id, PayloadOf(p.params, args).value);
            |rx| >= 4 && Receives(EMITTED_C, rx[4..], p.params, args)
  {
    hide Decode, Request, PayloadOf, BitsOf, ReadAll, Framing.Padded, Arguments;
    RequestIsAccepted(txn, id, PayloadOf(p.params, args).value);
    ServerReadsArguments(p.params, args);
  }

  lemma RanOnArguments(h: Handler, p: Procedure, mem: seq<byte>, rx: seq<byte>, handled: seq<byte>, ret: CVal,
                       args: seq<Val>)
    requires RanOn(h, p, mem, rx, handled, ret) && Receives(EMITTED_C, rx, p.params, args)
    ensures Ran(h, p, mem, args, handled, ret)
  {
    hide BitsOf, ReadAll, Ran;
  }

  /** Whatever a switch does as `Invoke` over some buffer serves the request. */
  lemma InvokeServes(sw: Switch, id: nat, p: Procedure, rx: seq<byte>, tx: seq<byte>, args: seq<Val>)
    requires sw(id, rx, tx) == Invoke(id, p, rx, tx)
    ensures Receives(EMITTED_C, rx, p.params, args) ==> Serves(sw, id, p, rx, tx, args)
  {
    hide StoreResult, ReadAll, BitsOf;
  }

  lemma ProcessIs(tx: seq<byte>, rx: seq<byte>, sw: Switch)
    requires Sane(sw)
    ensures |rx| < 4 || |tx| < 4 ==> Process(tx, rx, sw) == (EINVAL, tx)
    ensures |rx| >= 4 && |tx| >= 4 && rx[2] >= 32 ==> Process(tx, rx, sw) == (EFLAGS, tx)
    ensures |rx| >= 4 && |tx| >= 4 && rx[2] < 32 ==>
              var h, out := Decode(rx), sw(Decode(rx).rpcId, rx[4..], tx[4..]);
              Process(tx, rx, sw) ==
              if h.txn != 0 && h.resp then (ETXN, tx)
              else if h.txn == 0 && out.wlen == 0 then (0, tx[..4] + out.payload)
              else (4 + 4 * out.wlen, Encode(Header(out.wlen, h.txn, true, out.rpcId)) + out.payload)
  {
    hide Encode, Decode;
  }

  lemma OnceGives(inv: Invoked, id: nat, rx: seq<byte>, tx: seq<byte>)
    requires inv.rpcId < 4096 && inv.wlen < 256 && |tx| == |inv.payload|
    ensures Once(inv)(id, rx, tx) == inv
  {
  }

  lemma ServedRequest(procs: map<nat, Procedure>, handlers: map<nat, Handler>, rx: seq<byte>, size: nat, tx: nat,
                      n: nat)
    requires Served(procs, handlers, rx, size, tx, n) && |rx| >= 4 && n >= 4 && Decode(rx).rpcId in procs
    ensures var id := Decode(rx).rpcId;
            && id < 4096 && id in handlers && Invocable(procs[id], rx[4..])
            && |procs[id].result| <= 1 && Implements(handlers[id], procs[id], size, tx + 4, n - 4)
  {
    hide Decode, Invocable, Implements;
  }

  lemma WindowParts(handled: seq<byte>, mem: seq<byte>, tx: nat, n: nat)
    requires |handled| == |mem| && tx + n <= |mem| && n >= 4 && handled[..tx + 4] == mem[..tx + 4]
    ensures handled[tx..tx + n][4..] == handled[tx + 4..tx + n] && mem[tx..tx + n][4..] == mem[tx + 4..tx + n]
    ensures mem[tx..tx + n] == handled[tx..tx + n][..4] + mem[tx + 4..tx + n]
    ensures mem[..tx] == handled[..tx]
  {
    assert handled[tx..tx + n][..4] == handled[..tx + 4][tx..] == mem[..tx + 4][tx..] == mem[tx..tx + n][..4];
    assert mem[..tx] == mem[..tx + 4][..tx] == handled[..tx + 4][..tx] == handled[..tx];
  }

  lemma HeaderInWindow(before: seq<byte>, mem: seq<byte>, tx: nat, n: nat, head: seq<byte>)
    requires tx + n <= |before| && n >= 4 && |head| == 4 && mem == before[..tx] + head + before[tx + 4..]
    ensures mem[tx..tx + n] == head + before[tx + 4..tx + n]
    ensures mem[..tx] == before[..tx] && mem[tx + n..] == before[tx + n..]
  {
  }
}
