/** What `pack_payload` and `unpack_payload` guarantee together. */
module PythonPayload {
  import opened BitOps
  import opened BitString
  import opened Results
  import opened Wire
  import opened Types
  import opened Interop
  import opened Runs
  import opened PythonCodec
  import opened Encoding

  /** No struct inside a struct. */
  predicate Flat(ts: seq<Ty>) {
    forall i :: 0 <= i < |ts| ==> ts[i].TStruct? ==> NoStruct(ts[i].members)
  }

  predicate NoStruct(ts: seq<Ty>) {
    forall i :: 0 <= i < |ts| ==> !ts[i].TStruct?
  }

  /** Members that are not structs are sent as they are. */
  lemma {:induction false} SentMembers(ms: seq<Ty>, vs: seq<Val>)
    requires NoStruct(ms) && ConformAll(ms, vs)
    ensures ShapedAll(ms, vs) && Astuple(vs) == vs && SentAll(ms, vs) == vs
    decreases |ms|
  {
    if ms != [] {
      SentMembers(ms[1..], vs[1..]);
      SentLeaf(ms[0], vs[0]);
      assert vs == [vs[0]] + vs[1..];
      assert forall i :: 1 <= i < |vs| ==> vs[i] == Astuple(vs[1..])[i - 1];
    }
  }

  lemma SentLeaf(t: Ty, v: Val)
    requires !t.TStruct? && Conforms(t, v)
    ensures Shaped(t, v) && Sent(t, v) == v && !v.VStruct?
  {
    if t.TBit? {
      NatOfNatBits(v.x, t.n);
    }
  }

  /** Arguments in range and of flat types reach the wire unchanged. */
  lemma {:induction false} SentUnchanged(ts: seq<Ty>, vs: seq<Val>)
    requires Flat(ts) && ConformAll(ts, vs)
    ensures ShapedAll(ts, vs) && SentAll(ts, vs) == vs
    decreases |ts|
  {
    if ts != [] {
      SentUnchanged(ts[1..], vs[1..]);
      if ts[0].TStruct? {
        SentMembers(ts[0].members, vs[0].vs);
      } else {
        SentLeaf(ts[0], vs[0]);
      }
      assert vs == [vs[0]] + vs[1..];
    }
  }

  /** A struct inside a struct can never be packed, whatever its value. */
  lemma {:induction false} NestedIsRefused(ts: seq<Ty>, args: seq<Val>, i: nat, j: nat)
    requires ShapedAll(ts, args)
    requires i < |ts| && ts[i].TStruct? && j < |ts[i].members| && ts[i].members[j].TStruct?
    ensures !ConformAll(ts, SentAll(ts, args))
    decreases |ts|
  {
    if i > 0 {
      NestedIsRefused(ts[1..], args[1..], i - 1, j);
    } else if args[0].VStruct? {
      AstupleShaped(ts[0].members, args[0].vs);
      TupleIsRefused(ts[0].members, Astuple(args[0].vs), j);
    }
  }

  lemma {:induction false} TupleIsRefused(ms: seq<Ty>, vs: seq<Val>, j: nat)
    requires ShapedAll(ms, vs) && j < |ms| && ms[j].TStruct? && !vs[j].VStruct?
    ensures !ConformAll(ms, SentAll(ms, vs))
    decreases |ms|
  {
    if j > 0 {
      TupleIsRefused(ms[1..], vs[1..], j - 1);
    }
  }

  /** What `unpack_payload` returns. */
  function Unpacked(ts: seq<Ty>, payload: seq<byte>): Option<seq<Val>> {
    var g := ReadAll(PYTHON_UNPACK, BitsOf(payload), ts, 0);
    if g.None? then None else Some(g.value.0)
  }

  lemma UnpackedSent(ts: seq<Ty>, vs: seq<Val>, padding: seq<byte>)
    requires PayloadOf(ts, vs).Some? && CompatibleTypes(PYTHON_PACK, PYTHON_UNPACK, ts)
    ensures Unpacked(ts, PayloadOf(ts, vs).value + padding) == Some(vs)
  {
    hide BitsOf, Blank;
    var payload := PayloadOf(ts, vs).value;
    BitsOfAppend(payload, padding);
    var e, out := EndOf(PYTHON_PACK, ts, vs, 0), Write(PYTHON_PACK, Blank(), ts, vs, 0);
    PrefixOfPrefix(out, BitsOf(padding), e, Align(e));
    ReadOfWrite(PYTHON_PACK, PYTHON_UNPACK, Blank(), ts, vs, 0, 0, BitsOf(payload + padding));
  }

  lemma PrefixOfPrefix(a: seq<bool>, z: seq<bool>, e: nat, f: nat)
    requires e <= f <= |a|
    ensures (a[..f] + z)[..e] == a[..e]
  {
  }

  // ---------------------------------------------------------------- Which arguments come back

  /** `pack_payload` accepts these arguments, each of the class that its annotation names. */
  predicate Packs(ts: seq<Ty>, args: seq<Val>) {
    ShapedAll(ts, args) && PayloadOf(ts, SentAll(ts, args)).Some?
  }

  /** All bit fields are in range. */
  predicate BitsFit(t: Ty, v: Val)
    decreases t, 1
  {
    match t
    case TBit(n) => v.VNum? && 0 <= v.x < Pow2(n)
    case TStruct(ms) => v.VStruct? && BitsFitAll(ms, v.vs)
    case _ => true
  }

  predicate BitsFitAll(ts: seq<Ty>, vs: seq<Val>)
    decreases ts, 0
  {
    |ts| == |vs| && (ts != [] ==> BitsFit(ts[0], vs[0]) && BitsFitAll(ts[1..], vs[1..]))
  }

  /** Only flat types can be packed. */
  lemma PacksFlat(ts: seq<Ty>, args: seq<Val>)
    requires Packs(ts, args)
    ensures Flat(ts)
  {
    forall i, j | 0 <= i < |ts| && ts[i].TStruct? && 0 <= j < |ts[i].members| ensures !ts[i].members[j].TStruct? {
      if ts[i].members[j].TStruct? {
        NestedIsRefused(ts, args, i, j);
      }
    }
  }

  lemma SentLeafIff(t: Ty, v: Val)
    requires !t.TStruct? && Shaped(t, v)
    ensures Sent(t, v) == v <==> BitsFit(t, v)
  {
    if t.TBit? {
      NatOfBound(NatBits(v.x, t.n));
      if 0 <= v.x < Pow2(t.n) {
        NatOfNatBits(v.x, t.n);
      }
    }
  }

  /** Members of a flat struct are sent as they are exactly when their bit fields are in range. */
  lemma {:induction false} SentMembersIff(ms: seq<Ty>, vs: seq<Val>)
    requires NoStruct(ms) && ShapedAll(ms, vs)
    ensures Astuple(vs) == vs && (SentAll(ms, vs) == vs <==> BitsFitAll(ms, vs))
    decreases |ms|
  {
    hide Sent, BitsFit, Shaped;
    if ms != [] {
      NotAStruct(ms[0], vs[0]);
      SentLeafIff(ms[0], vs[0]);
      SentMembersIff(ms[1..], vs[1..]);
      assert vs == [vs[0]] + vs[1..];
      assert forall i :: 1 <= i < |vs| ==> vs[i] == Astuple(vs[1..])[i - 1];
      assert SentAll(ms, vs)[1..] == SentAll(ms[1..], vs[1..]);
    }
  }

  lemma NotAStruct(t: Ty, v: Val)
    requires !t.TStruct? && Shaped(t, v)
    ensures !v.VStruct?
  {
  }

  lemma {:induction false} SentIff(ts: seq<Ty>, args: seq<Val>)
    requires Flat(ts) && ShapedAll(ts, args) && ConformAll(ts, SentAll(ts, args))
    ensures SentAll(ts, args) == args <==> BitsFitAll(ts, args)
    decreases |ts|
  {
    if ts != [] {
      if ts[0].TStruct? {
        if args[0].VStruct? {
          SentMembersIff(ts[0].members, args[0].vs);
        }
      } else {
        SentLeafIff(ts[0], args[0]);
      }
      assert SentAll(ts, args)[1..] == SentAll(ts[1..], args[1..]);
      SentIff(ts[1..], args[1..]);
      assert args == [args[0]] + args[1..];
    }
  }

  // ---------------------------------------------------------------- What the payload is

  /** What `pack_payload` takes: any bit field, numbers in range, and lists of at most 65535 bytes. */
  predicate Accepts(t: Ty, v: Val)
    decreases t, 1
  {
    match t
    case TNum(k) => v.VNum? && Least(k) <= v.x <= Greatest(k)
    case TBit(_) => v.VNum?
    case TList(k) => v.VList? && AcceptsItems(k, v.xs)
    case TBlob => v.VList? && AcceptsItems(U8, v.xs)
    case TStruct(ms) => v.VStruct? && AcceptsAll(ms, v.vs)
  }

  predicate AcceptsItems(k: Num, xs: seq<int>) {
    (forall i :: 0 <= i < |xs| ==> Least(k) <= xs[i] <= Greatest(k)) && Size(k) / 8 * |xs| <= 65535
  }

  predicate AcceptsAll(ts: seq<Ty>, vs: seq<Val>)
    decreases ts, 0
  {
    |ts| == |vs| && (ts != [] ==> Accepts(ts[0], vs[0]) && AcceptsAll(ts[1..], vs[1..]))
  }

  lemma AcceptsItemsIff(k: Num, xs: seq<int>)
    ensures ListConforms(k, VList(xs)) <==> AcceptsItems(k, xs)
  {
    hide InRange, Items, Size, Width, Least, Greatest, Pow2;
    forall i | 0 <= i < |xs| ensures InRange(k, xs[i]) <==> Least(k) <= xs[i] <= Greatest(k) {
      NumberRange(k, xs[i]);
    }
    if AllInRange(k, xs) {
      ItemsAreElements(k, xs);
    }
  }

  lemma AcceptsLeafIff(t: Ty, v: Val)
    requires !t.TStruct? && Shaped(t, v)
    ensures Conforms(t, Sent(t, v)) <==> Accepts(t, v)
    ensures Alone(t, Sent(t, v)) == Alone(t, v)
  {
    hide InRange, ListConforms, AcceptsItems, NatBits, NatOf, Least, Greatest, Pow2;
    match t
    case TNum(k) => NumberRange(k, v.x);
    case TBit(n) =>
      NatOfBound(NatBits(v.x, n));
      NatBitsNatOf(NatBits(v.x, n));
    case TList(k) => AcceptsItemsIff(k, v.xs);
    case TBlob => AcceptsItemsIff(U8, v.xs);
  }

  lemma LeafLaid(b: seq<bool>, t: Ty, v: Val, v': Val, p: nat, begin: bool, finish: bool)
    requires !t.TStruct? && Alone(t, v) == Alone(t, v')
    ensures Laid(b, t, v, p, begin, finish) == Laid(b, t, v', p, begin, finish)
  {
  }

  lemma {:induction false} AcceptsMembersIff(b: seq<bool>, ms: seq<Ty>, vs: seq<Val>, p: nat, begin: bool, finish: bool)
    requires NoStruct(ms) && ShapedAll(ms, vs)
    ensures ConformAll(ms, SentAll(ms, vs)) <==> AcceptsAll(ms, vs)
    ensures LaidAll(b, ms, SentAll(ms, vs), p, begin, finish) == LaidAll(b, ms, vs, p, begin, finish)
    decreases |ms|
  {
    hide Conforms, Accepts, Sent, Laid, Shaped;
    if ms != [] {
      AcceptsLeafIff(ms[0], vs[0]);
      LeafLaid(b, ms[0], Sent(ms[0], vs[0]), vs[0], p, begin, finish);
      AcceptsMembersIff(b, ms[1..], vs[1..], p + |Laid(b, ms[0], vs[0], p, begin, finish)|, begin, finish);
      assert SentAll(ms, vs)[1..] == SentAll(ms[1..], vs[1..]);
    }
  }

  lemma StructSent(ms: seq<Ty>, v: Val)
    requires NoStruct(ms) && Shaped(TStruct(ms), v)
    ensures !v.VStruct? ==> !Conforms(TStruct(ms), Sent(TStruct(ms), v)) && !Accepts(TStruct(ms), v)
    ensures v.VStruct? ==> ShapedAll(ms, v.vs) && Sent(TStruct(ms), v) == VStruct(SentAll(ms, v.vs))
  {
    hide SentAll, ShapedAll, BitsFitAll;
    if v.VStruct? {
      SentMembersIff(ms, v.vs);
    }
  }

  lemma AcceptsIff(b: seq<bool>, t: Ty, v: Val, p: nat, begin: bool, finish: bool)
    requires (t.TStruct? ==> NoStruct(t.members)) && Shaped(t, v)
    ensures Conforms(t, Sent(t, v)) <==> Accepts(t, v)
    ensures Accepts(t, v) ==> Laid(b, t, Sent(t, v), p, begin, finish) == Laid(b, t, v, p, begin, finish)
  {
    hide SentAll, ShapedAll, ConformAll, AcceptsAll, LaidAll, Gap;
    if t.TStruct? {
      StructSent(t.members, v);
      if v.VStruct? {
        AcceptsMembersIff(b, t.members, v.vs, p + (if begin then |Gap(b, p)| else 0), begin, finish);
      }
    } else {
      AcceptsLeafIff(t, v);
      LeafLaid(b, t, Sent(t, v), v, p, begin, finish);
    }
  }

  lemma {:induction false} AcceptsAllIff(b: seq<bool>, ts: seq<Ty>, vs: seq<Val>, p: nat, begin: bool, finish: bool)
    requires Flat(ts) && ShapedAll(ts, vs)
    ensures ConformAll(ts, SentAll(ts, vs)) <==> AcceptsAll(ts, vs)
    ensures AcceptsAll(ts, vs) ==>
              LaidAll(b, ts, SentAll(ts, vs), p, begin, finish) == LaidAll(b, ts, vs, p, begin, finish)
    decreases |ts|
  {
    hide Conforms, Accepts, Sent, Laid, Shaped;
    if ts != [] {
      AcceptsIff(b, ts[0], vs[0], p, begin, finish);
      AcceptsAllIff(b, ts[1..], vs[1..], p + |Laid(b, ts[0], vs[0], p, begin, finish)|, begin, finish);
      assert SentAll(ts, vs)[1..] == SentAll(ts[1..], vs[1..]);
    }
  }

  lemma BlankIsZero()
    ensures Blank() == Falses(8 * 1024)
  {
    hide TestBit;
    forall i | 0 <= i < 8 * 1024 ensures Blank()[i] == Falses(8 * 1024)[i] {
      BitsOfAt(seq(BUFFER_SIZE, _ => 0), i);
      ZeroBits(7 - i % 8);
    }
  }

  /**
    What `pack_payload` accepts: flat types, arguments in range, and fields that
    take at most 1024 bytes, structs beginning at byte boundaries.
   */
  lemma PacksIff(ts: seq<Ty>, args: seq<Val>)
    requires ShapedAll(ts, args)
    ensures Packs(ts, args) <==>
            && Flat(ts) && AcceptsAll(ts, args)
            && |LaidAll(Falses(8 * 1024), ts, args, 0, true, false)| <= 8 * 1024
  {
    hide ShapedAll, SentAll, AcceptsAll, LaidAll, Flat, Blank, Put, ConformAll, EndOf;
    BlankIsZero();
    if Packs(ts, args) {
      PacksFlat(ts, args);
    }
    if Flat(ts) {
      AcceptsAllIff(Blank(), ts, args, 0, true, false);
      if AcceptsAll(ts, args) {
        EndIsLaid(PYTHON_PACK, Blank(), ts, SentAll(ts, args), 0);
      }
    }
  }

  /**
    Every bit of a payload: the fields in order over zeros, structs beginning at
    byte boundaries and not finishing at them, and zeros up to a byte.
   */
  lemma PayloadBits(ts: seq<Ty>, args: seq<Val>)
    requires Packs(ts, args)
    ensures var zeros := Falses(8 * 1024);
            var fields := LaidAll(zeros, ts, args, 0, true, false);
            BitsOf(PayloadOf(ts, SentAll(ts, args)).value) == fields + Gap(zeros, |fields|)
  {
    hide ShapedAll, SentAll, AcceptsAll, LaidAll, Flat, Blank, EmitAll, BitsOf, Gap, Align, Holds;
    BlankIsZero();
    PacksFlat(ts, args);
    PackedConforms(ts, args);
    AcceptsAllIff(Blank(), ts, args, 0, true, false);
    EmitAllIsLaid(PYTHON_PACK, Blank(), ts, SentAll(ts, args), 0);
    var (now, e) := EmitAll(PYTHON_PACK, Blank(), ts, SentAll(ts, args), 0).value;
    GapReaches(Blank(), e);
    CutBehind(now, Blank(), LaidAll(Blank(), ts, args, 0, true, false), Align(e));
  }

  /** A single number packs exactly when it is in range, into as many bytes as its size says. */
  lemma NumberPayload(k: Num, x: int)
    ensures Packs([TNum(k)], [VNum(x)]) <==> Least(k) <= x <= Greatest(k)
    ensures Least(k) <= x <= Greatest(k) ==>
              && PayloadOf([TNum(k)], [VNum(x)]).Some? && 8 * |PayloadOf([TNum(k)], [VNum(x)]).value| == Size(k)
              && Base256(PayloadOf([TNum(k)], [VNum(x)]).value) == if x < 0 then x + Greatest(k) - Least(k) + 1 else x
  {
    hide PayloadOf, NatBits, Least, Greatest, Base256, BitsOf, Gap;
    var ts, args, zeros := [TNum(k)], [VNum(x)], Falses(8 * 1024);
    assert ts[1..] == [] && args[1..] == [];
    assert AcceptsAll(ts[1..], args[1..]) && SentAll(ts, args) == args + [];
    assert args + [] == args;
    PacksIff(ts, args);
    NumberLaid(zeros, k, x);
    if Least(k) <= x <= Greatest(k) {
      PayloadBits(ts, args);
      NumberBytes(k, x, PayloadOf(ts, args).value);
    }
  }

  lemma NumberLaid(b: seq<bool>, k: Num, x: int)
    ensures LaidAll(b, [TNum(k)], [VNum(x)], 0, true, false) == NatBits(x, Size(k)) && Gap(b, Size(k)) == []
  {
    assert Gap(b, 0) == [];
    assert [TNum(k)][1..] == [] && [VNum(x)][1..] == [];
    assert Laid(b, TNum(k), VNum(x), 0, true, false) == [] + NatBits(x, Size(k)) == NatBits(x, Size(k));
    assert NatBits(x, Size(k)) + [] == NatBits(x, Size(k));
  }

  lemma PackedConforms(ts: seq<Ty>, args: seq<Val>)
    requires Packs(ts, args)
    ensures ConformAll(ts, SentAll(ts, args))
  {
    hide ShapedAll, ConformAll, Blank, Put, EndOf;
  }

  lemma CutBehind(now: seq<bool>, b: seq<bool>, l: seq<bool>, n: nat)
    requires Holds(now, b, 0, l) && |l| <= n <= |b|
    ensures |now| == |b| && now[..n] == l + b[|l|..n]
  {
    assert b[..0] + l + b[0 + |l|..] == l + b[|l|..];
  }

  /**
    Unpacking undoes packing, for all types that Python reads and all arguments that
    pack, with any trailing bytes: what comes back is what was sent, and that is the
    arguments themselves exactly when their bit fields are in range.
   */
  lemma PayloadRoundTrip(ts: seq<Ty>, args: seq<Val>, padding: seq<byte>)
    requires Packs(ts, args) && PythonReadsPython(ts)
    ensures Unpacked(ts, PayloadOf(ts, SentAll(ts, args)).value + padding) == Some(SentAll(ts, args))
    ensures Unpacked(ts, PayloadOf(ts, SentAll(ts, args)).value + padding) == Some(args) <==> BitsFitAll(ts, args)
  {
    hide Unpacked, Blank, BytesOf, SentAll, BitsFitAll, ShapedAll, ConformAll, CompatibleTypes, PythonReadsPython;
    FromPythonIff(ts);
    PacksFlat(ts, args);
    UnpackedSent(ts, SentAll(ts, args), padding);
    SentIff(ts, args);
  }

  /** All in-range arguments of these types that `pack_payload` accepts come back, with any trailing bytes. */
  ghost predicate RoundTrips(ts: seq<Ty>) {
    forall args, padding :: Packs(ts, args) && BitsFitAll(ts, args) ==>
      Unpacked(ts, PayloadOf(ts, SentAll(ts, args)).value + padding) == Some(args)
  }

  /** Some argument list of these types can be packed. */
  predicate Packable(ts: seq<Ty>) {
    Flat(ts) && MinEnd(PYTHON_PACK, ts) <= 8 * BUFFER_SIZE
  }

  lemma PacksPackable(ts: seq<Ty>, args: seq<Val>)
    requires Packs(ts, args)
    ensures Packable(ts)
  {
    hide Blank, BytesOf, SentAll, Put, End;
    PacksFlat(ts, args);
    ZerosAreLeast(PYTHON_PACK, TokensAll(ts), LeavesAll(ts, SentAll(ts, args)), 0, 0);
  }

  /**
    The exact condition for Python talking to Python, over what `pack_payload`
    accepts: types that cannot be packed at all promise nothing, and of all others
    exactly those keep the promise whose bit fields in front of a number, back to
    the begin of their struct or to a list, are whole bytes if another one follows.
   */
  lemma RoundTripsIff(ts: seq<Ty>)
    ensures RoundTrips(ts) <==> !Packable(ts) || PythonReadsPython(ts)
  {
    hide Unpacked, PayloadOf, SentAll, BitsFitAll, ShapedAll, PythonReadsPython, Packable;
    if !Packable(ts) {
      forall args | Packs(ts, args) ensures false {
        PacksPackable(ts, args);
      }
    } else if PythonReadsPython(ts) {
      forall args, padding | Packs(ts, args) && BitsFitAll(ts, args)
        ensures Unpacked(ts, PayloadOf(ts, SentAll(ts, args)).value + padding) == Some(args)
      {
        PayloadRoundTrip(ts, args, padding);
      }
    } else {
      var args, padding := Misread(ts);
    }
  }

  /**
    In-range arguments that `pack_payload` accepts and that unpack to something else,
    for all types that fail the check.
   */
  lemma Misread(ts: seq<Ty>) returns (args: seq<Val>, padding: seq<byte>)
    requires Packable(ts) && !PythonReadsPython(ts)
    ensures Packs(ts, args) && BitsFitAll(ts, args)
    ensures Unpacked(ts, PayloadOf(ts, SentAll(ts, args)).value + padding) != Some(args)
  {
    hide BitsOf, Blank, Put, End, TokensAll, LeavesAll, ReadAll, ConformAll, CompatibleTypes, MinEnd, SentAll,
         BitsFitAll, ShapedAll, PythonReadsPython, CReadsPython;
    UnderstoodFromPythonIff(Blank(), ts);
    var ws :| ConformAll(ts, ws) && EndOf(PYTHON_PACK, ts, ws, 0) <= |Blank()| &&
      var g := ReadAll(PYTHON_UNPACK, Write(PYTHON_PACK, Blank(), ts, ws, 0), ts, 0);
      !(g.Some? && g.value.0 == ws);
    args := ws;
    SentUnchanged(ts, args);
    SentIff(ts, args);
    padding := RestOfBuffer(ts, args);
  }

  /** The rest of the buffer, cut off by `pack_payload`, as padding. */
  lemma RestOfBuffer(ts: seq<Ty>, args: seq<Val>) returns (padding: seq<byte>)
    requires ConformAll(ts, args) && EndOf(PYTHON_PACK, ts, args, 0) <= |Blank()|
    ensures PayloadOf(ts, args).Some?
    ensures BitsOf(PayloadOf(ts, args).value + padding) == Write(PYTHON_PACK, Blank(), ts, args, 0)
  {
    hide BitsOf, Blank, Put, End, TokensAll, LeavesAll, ConformAll;
    var out := Write(PYTHON_PACK, Blank(), ts, args, 0);
    var n := Align(EndOf(PYTHON_PACK, ts, args, 0));
    padding := BytesOf(out[n..]);
    BitsOfAppend(PayloadOf(ts, args).value, padding);
    assert out[..n] + out[n..] == out;
  }
}
