/**
  The Python codec: `BitU.pack`, `BitU.unpack`, `pack_payload` and
  `unpack_payload`. An exception that leaves the codec is the result `None`.
 */
module PythonCodec {
  import opened BitOps
  import opened BitString
  import opened BitFields
  import opened Memory
  import opened Results
  import opened Wire
  import opened Types
  import opened Interop
  import opened ByteLevel

  const BUFFER_SIZE := 1024

  /** `BitU.pack`: false when the buffer index runs past the end. */
  method PackBits(buffer: array<byte>, offset: nat, size: nat, value: int) returns (ok: bool)
    requires offset <= 8 * buffer.Length
    modifies buffer
    ensures ok == (offset + size <= 8 * buffer.Length)
    ensures ok ==> BitsOf(buffer[..]) == Splice(old(BitsOf(buffer[..])), offset, NatBits(value, size))
  {
    hide BitsOf, NatBits, Placed, Extract, Insert;
    ghost var before := BitsOf(buffer[..]);
    var byteIndex := offset / 8;
    var bitsRemaining: nat := size;
    var bitPosition := offset;
    PlacedNone(buffer[..], offset, size, value);
    while bitsRemaining > 0
      invariant bitsRemaining <= size && bitPosition == offset + (size - bitsRemaining)
      invariant bitsRemaining > 0 ==> byteIndex == bitPosition / 8
      invariant Placed(before, buffer[..], offset, size, value, bitsRemaining)
    {
      var bitsToFill := 8 - bitPosition % 8;
      var bitsToPlace := if bitsRemaining <= bitsToFill then bitsRemaining else bitsToFill;
      var shift := bitsToFill - bitsToPlace;
      var bitValue := Extract(value, bitsRemaining - bitsToPlace, bitsToPlace);
      if byteIndex >= buffer.Length {
        return false;
      }
      PlacedRound(before, buffer[..], offset, size, value, bitsRemaining, bitsToPlace);
      PackedByte(buffer[byteIndex], value, bitsRemaining - bitsToPlace, bitsToPlace, bitPosition % 8);
      ghost var was := buffer[..];
      buffer[byteIndex] := Insert(buffer[byteIndex], bitValue, bitsToPlace, shift);
      assert buffer[..] == was[byteIndex := RoundByte(was[byteIndex], value, bitPosition, bitsRemaining, bitsToPlace)];
      bitPosition := bitPosition + bitsToPlace;
      byteIndex := byteIndex + 1;
      bitsRemaining := bitsRemaining - bitsToPlace;
    }
    PlacedAll(before, buffer[..], offset, size, value);
    ok := true;
  }

  /** `buffer[at:at+w] = struct.pack(fmt, x)`: false when out of range or past the end. */
  method PackNumber(buffer: array<byte>, at: nat, k: Num, x: int) returns (ok: bool)
    modifies buffer
    ensures ok == (InRange(k, x) && at + Width(k) <= buffer.Length)
    ensures ok ==>
              BitsOf(buffer[..]) == Splice(old(BitsOf(buffer[..])), 8 * at, NatBits(Pattern(k, x), 8 * Width(k)))
  {
    if !InRange(k, x) || at + Width(k) > buffer.Length {
      return false;
    }
    BigEndianBits(Pattern(k, x), Width(k));
    Store(buffer, at, BigEndian(Pattern(k, x), Width(k)));
    ok := true;
  }

  /** The element loop of `pack_payload`, from byte `at` on. */
  method PackItems(buffer: array<byte>, at: nat, k: Num, xs: seq<int>) returns (ok: bool)
    requires at <= buffer.Length
    modifies buffer
    ensures ok == (AllInRange(k, xs) && 8 * at + |Items(Width(k), Patterns(k, xs))| <= 8 * buffer.Length)
    ensures ok ==>
              BitsOf(buffer[..]) == Splice(old(BitsOf(buffer[..])), 8 * at, Items(Width(k), Patterns(k, xs)))
  {
    hide BitsOf, Items, Patterns;
    ghost var before := BitsOf(buffer[..]);
    var offset: nat := at;
    NoItems(buffer[..], at, k, xs);
    for i := 0 to |xs|
      invariant ItemsStored(before, buffer[..], at, k, xs, i, offset)
    {
      ghost var was := buffer[..];
      var stored := PackNumber(buffer, offset, k, xs[i]);
      if !stored {
        if AllInRange(k, xs) {
          ItemsOfPrefix(k, xs, i);
        }
        return false;
      }
      ItemsRound(before, was, buffer[..], at, k, xs, i, offset);
      offset := offset + Width(k);
    }
    assert xs[..|xs|] == xs;
    ok := true;
  }

  /** The list, bytes and str branches of `_pack`, at a byte boundary. */
  method PackList(buffer: array<byte>, at: nat, k: Num, xs: seq<int>) returns (ok: bool, next: nat)
    requires at <= buffer.Length
    modifies buffer
    ensures ok == (ListConforms(k, VList(xs)) && 8 * at + |ListImage(k, xs)| <= 8 * buffer.Length)
    ensures ok ==> 8 * next == 8 * at + |ListImage(k, xs)|
    ensures ok ==> BitsOf(buffer[..]) == Splice(old(BitsOf(buffer[..])), 8 * at, ListImage(k, xs))
  {
    var length: nat := |xs| * Width(k);
    if AllInRange(k, xs) {
      PrefixIsLength(k, xs);
    }
    ok := PackPrefixed(buffer, at, k, xs, length);
    next := at + 2 + length;
  }

  method PackPrefixed(buffer: array<byte>, at: nat, k: Num, xs: seq<int>, length: nat) returns (ok: bool)
    requires at <= buffer.Length
    requires AllInRange(k, xs) ==> length == |Items(Width(k), Patterns(k, xs))| / 8
    modifies buffer
    ensures ok == (ListConforms(k, VList(xs)) && 8 * at + |ListImage(k, xs)| <= 8 * buffer.Length)
    ensures ok ==> BitsOf(buffer[..]) == Splice(old(BitsOf(buffer[..])), 8 * at, ListImage(k, xs))
  {
    ghost var before := BitsOf(buffer[..]);
    U16Range(length);
    ok := PackNumber(buffer, at, U16, length);
    if ok {
      ghost var mid := BitsOf(buffer[..]);
      ok := PackItems(buffer, at + 2, k, xs);
      if ok {
        ListSpliced(before, mid, BitsOf(buffer[..]), at, k, xs, length);
      }
    }
  }

  // ---------------------------------------------------------------- pack_payload

  /** The value is of the Python class that the annotation names. */
  predicate Shaped(t: Ty, v: Val)
    decreases t, 1
  {
    match t
    case TNum(_) => v.VNum?
    case TBit(_) => v.VNum?
    case TList(_) => v.VList?
    case TBlob => v.VList?
    case TStruct(ms) => v.VTuple? || (v.VStruct? && ShapedAll(ms, v.vs))
  }

  predicate ShapedAll(ts: seq<Ty>, vs: seq<Val>)
    decreases ts, 0
  {
    |ts| == |vs| && (ts != [] ==> Shaped(ts[0], vs[0]) && ShapedAll(ts[1..], vs[1..]))
  }

  /** `astuple`: nested struct instances become plain tuples. */
  function Astuple(vs: seq<Val>): (r: seq<Val>)
    ensures |r| == |vs|
    ensures forall i :: 0 <= i < |vs| ==> r[i] == if vs[i].VStruct? then VTuple(vs[i].vs) else vs[i]
  {
    seq(|vs|, i requires 0 <= i < |vs| => if vs[i].VStruct? then VTuple(vs[i].vs) else vs[i])
  }

  /** What `_pack` puts on the wire for `v`: a bit field keeps only its low bits. */
  function Sent(t: Ty, v: Val): Val
    requires Shaped(t, v)
    decreases t, 1
  {
    match t
    case TBit(n) => VNum(NatOf(NatBits(v.x, n)))
    case TStruct(ms) =>
      if v.VTuple? then v
      else
        AstupleShaped(ms, v.vs);
        VStruct(SentAll(ms, Astuple(v.vs)))
    case _ => v
  }

  function SentAll(ts: seq<Ty>, vs: seq<Val>): (r: seq<Val>)
    requires ShapedAll(ts, vs)
    ensures |r| == |ts|
    decreases ts, 0
  {
    if ts == [] then [] else [Sent(ts[0], vs[0])] + SentAll(ts[1..], vs[1..])
  }

  lemma {:induction false} AstupleShaped(ts: seq<Ty>, vs: seq<Val>)
    requires ShapedAll(ts, vs)
    ensures ShapedAll(ts, Astuple(vs))
    decreases |ts|
  {
    if ts != [] {
      AstupleShaped(ts[1..], vs[1..]);
      assert Astuple(vs)[1..] == Astuple(vs[1..]);
    }
  }

  /** The bit field and number branches of `_pack`. */
  method PackNum(buffer: array<byte>, offset: nat, t: Ty, x: int) returns (ok: bool, next: nat)
    requires offset <= 8 * buffer.Length && (t.TNum? || t.TBit?)
    modifies buffer
    ensures (if ok then Some((BitsOf(buffer[..]), next)) else None) ==
            old(EmitOne(PYTHON_PACK, BitsOf(buffer[..]), t, Sent(t, VNum(x)), offset))
  {
    hide BitsOf, EmitOne, Splice, NatBits, NatOf, Pattern, InRange;
    if t.TBit? {
      EmitBits(PYTHON_PACK, BitsOf(buffer[..]), t.n, x, offset);
      ok := PackBits(buffer, offset, t.n, x);
      next := offset + t.n;
    } else {
      EmitNumber(PYTHON_PACK, BitsOf(buffer[..]), t.k, x, offset);
      ok := PackNumber(buffer, Align(offset) / 8, t.k, x);
      next := Align(offset) + 8 * Width(t.k);
    }
  }

  /** The list, bytes and str branches of `_pack`. */
  method PackSeq(buffer: array<byte>, offset: nat, t: Ty, xs: seq<int>) returns (ok: bool, next: nat)
    requires offset <= 8 * buffer.Length && (t.TList? || t.TBlob?)
    modifies buffer
    ensures (if ok then Some((BitsOf(buffer[..]), next)) else None) ==
            old(EmitOne(PYTHON_PACK, BitsOf(buffer[..]), t, VList(xs), offset))
  {
    hide BitsOf, EmitOne, Splice, ListImage, ListConforms;
    EmitList(PYTHON_PACK, BitsOf(buffer[..]), t, xs, offset);
    ok, next := PackList(buffer, Align(offset) / 8, Element(t), xs);
    next := 8 * next;
  }

  /** `_pack` */
  method Pack(buffer: array<byte>, offset: nat, t: Ty, v: Val) returns (ok: bool, next: nat)
    requires offset <= 8 * buffer.Length && Shaped(t, v)
    modifies buffer
    ensures (if ok then Some((BitsOf(buffer[..]), next)) else None) ==
            old(EmitOne(PYTHON_PACK, BitsOf(buffer[..]), t, Sent(t, v), offset))
    decreases t, 1
  {
    match t {
      case TStruct(ms) =>
        if v.VTuple? {
          return false, offset;
        }
        AstupleShaped(ms, v.vs);
        EmitStruct(PYTHON_PACK, BitsOf(buffer[..]), ms, SentAll(ms, Astuple(v.vs)), offset);
        ok, next := PackAll(buffer, Align(offset), ms, Astuple(v.vs));
      case TBit(_) =>
        ok, next := PackNum(buffer, offset, t, v.x);
      case TNum(_) =>
        ok, next := PackNum(buffer, offset, t, v.x);
      case TList(_) =>
        ok, next := PackSeq(buffer, offset, t, v.xs);
      case TBlob =>
        ok, next := PackSeq(buffer, offset, t, v.xs);
    }
  }

  /** The loops over struct members and over the arguments. */
  method PackAll(buffer: array<byte>, offset: nat, ts: seq<Ty>, vs: seq<Val>) returns (ok: bool, next: nat)
    requires offset <= 8 * buffer.Length && ShapedAll(ts, vs)
    modifies buffer
    ensures (if ok then Some((BitsOf(buffer[..]), next)) else None) ==
            old(EmitAll(PYTHON_PACK, BitsOf(buffer[..]), ts, SentAll(ts, vs), offset))
    decreases ts, 0
  {
    ghost var target := EmitAll(PYTHON_PACK, BitsOf(buffer[..]), ts, SentAll(ts, vs), offset);
    next := offset;
    var i := 0;
    assert ts[0..] == ts && vs[0..] == vs;
    while i < |ts|
      invariant 0 <= i <= |ts| == |vs| && next <= 8 * buffer.Length && ShapedAll(ts[i..], vs[i..])
      invariant target == EmitAll(PYTHON_PACK, BitsOf(buffer[..]), ts[i..], SentAll(ts[i..], vs[i..]), next)
    {
      EmitCons(PYTHON_PACK, BitsOf(buffer[..]), ts[i..], SentAll(ts[i..], vs[i..]), next);
      assert ts[i..][1..] == ts[i + 1..] && vs[i..][1..] == vs[i + 1..];
      ok, next := Pack(buffer, next, ts[i], vs[i]);
      if !ok {
        return false, offset;
      }
      i := i + 1;
    }
    ok := true;
  }

  /** The zeroed buffer that `pack_payload` starts from. */
  function Blank(): (r: seq<bool>)
    ensures |r| == 8 * BUFFER_SIZE
  {
    BitsOf(seq(BUFFER_SIZE, _ => 0))
  }

  /** The packed bits of a zeroed buffer, cut at the next byte boundary. */
  function PayloadOf(ts: seq<Ty>, vs: seq<Val>): Option<seq<byte>> {
    var (b, e) :- EmitAll(PYTHON_PACK, Blank(), ts, vs, 0);
    Some(BytesOf(b[..Align(e)]))
  }

  /**
    `pack_payload`. An argument list is refused exactly when it has the wrong
    length or `PayloadOf` what would be sent is `None`.
   */
  method PackPayload(ts: seq<Ty>, args: seq<Val>) returns (r: Option<seq<byte>>)
    requires |ts| == |args| ==> ShapedAll(ts, args)
    ensures r == if |ts| == |args| then PayloadOf(ts, SentAll(ts, args)) else None
  {
    hide BitsOf;
    var buffer := new byte[BUFFER_SIZE](_ => 0);
    if |args| != |ts| {
      return None;
    }
    assert buffer[..] == seq(BUFFER_SIZE, _ => 0);
    var ok, offset := PackAll(buffer, 0, ts, args);
    if !ok {
      return None;
    }
    var size := Align(offset) / 8;
    BitsOfSlice(buffer[..], 0, size);
    assert buffer[..][0..size] == buffer[..size];
    BitsOfInjective(buffer[..size], BytesOf(BitsOf(buffer[..])[..8 * size]));
    r := Some(buffer[..size]);
  }

  // ---------------------------------------------------------------- unpack_payload

  /** `BitU.unpack`: `None` when the buffer index runs past the end. */
  method UnpackBits(buffer: seq<byte>, offset: nat, size: nat) returns (r: Option<nat>)
    ensures r == if size == 0 then Some(0)
                 else if offset + size > 8 * |buffer| then None
                 else Some(NatOf(BitsOf(buffer)[offset..offset + size]))
  {
    hide BitsOf, NatOf, Gathered, TestBit, Shl, Or, Extract;
    var val: nat := 0;
    var byteIndex := offset / 8;
    var bitsRemaining: nat := size;
    var bitPosition := offset;
    ghost var inside := offset + size <= 8 * |buffer|;
    if inside {
      GatheredNone(BitsOf(buffer)[offset..offset + size]);
    }
    while bitsRemaining > 0
      invariant bitsRemaining <= size && bitPosition == offset + (size - bitsRemaining)
      invariant bitsRemaining > 0 ==> byteIndex == bitPosition / 8
      invariant bitsRemaining < size ==> bitPosition <= 8 * |buffer|
      invariant inside ==> Gathered(BitsOf(buffer)[offset..offset + size], val, bitsRemaining)
      invariant size == 0 ==> val == 0
    {
      var bitsToFill := 8 - bitPosition % 8;
      var bitsToPlace := if bitsRemaining <= bitsToFill then bitsRemaining else bitsToFill;
      var shift := bitsToFill - bitsToPlace;
      if byteIndex >= |buffer| {
        return None;
      }
      if inside {
        UnpackRound(buffer, offset, size, val, bitsRemaining, bitsToPlace);
      }
      var bitValue := Extract(buffer[byteIndex], shift, bitsToPlace);
      bitPosition := bitPosition + bitsToPlace;
      byteIndex := byteIndex + 1;
      bitsRemaining := bitsRemaining - bitsToPlace;
      val := Or(val, Shl(bitValue, bitsRemaining));
    }
    if size > 0 {
      GatheredAll(BitsOf(buffer)[offset..offset + size], val);
    }
    r := Some(val);
  }

  /** `struct.unpack_from`: `None` when the payload is too short. */
  function UnpackFrom(k: Num, payload: seq<byte>, at: nat): Option<int> {
    if at + Width(k) > |payload| then None
    else Some(Value(k, FromBigEndian(payload[at..at + Width(k)])))
  }

  /** The element loop of `_unpack` over `whole` bytes from `start` on. */
  method UnpackItems(payload: seq<byte>, start: nat, whole: nat, k: Num) returns (r: Option<seq<int>>)
    requires Whole(whole, Width(k)) && start <= |payload|
    ensures r.Some? <==> start + whole <= |payload|
    ensures r.Some? ==> AllInRange(k, r.value) &&
                        Patterns(k, r.value) == Elements(payload, Width(k), start, start + whole)
  {
    hide Collected, Value, ReadItems, BitsOf, FromBigEndian, Elements, Patterns, AllInRange, Whole;
    var xs: seq<int> := [];
    var o: nat := start;
    var end := start + whole;
    CollectedNone(payload, k, start, end);
    while o < end
      invariant start <= o <= end && o <= |payload|
      invariant Collected(payload, k, start, o, end, xs) && Whole(end - o, Width(k))
    {
      WholeStep(end - o, Width(k));
      var x := UnpackFrom(k, payload, o);
      if x.None? {
        return None;
      }
      CollectedRound(payload, k, start, o, end, xs);
      xs := xs + [x.value];
      o := o + Width(k);
    }
    CollectedAll(payload, k, start, end, xs);
    r := Some(xs);
  }

  /** The number and enum branches of `_unpack`. */
  method UnpackNum(payload: seq<byte>, offset: nat, k: Num) returns (r: Option<(Val, nat)>)
    ensures r == Read(PYTHON_UNPACK, BitsOf(payload), TNum(k), offset)
  {
    hide BitsOf, FromBigEndian, Value, Read;
    ReadNumBytes(PYTHON_UNPACK, payload, k, offset);
    var x := UnpackFrom(k, payload, Align(offset) / 8);
    r := if x.None? then None else Some((VNum(x.value), offset + 8 * Width(k)));
  }

  /** The list branch of `_unpack`, and the bytes and str branch, which slices. */
  method UnpackSeq(payload: seq<byte>, offset: nat, t: Ty) returns (r: Option<(Val, nat)>)
    requires t.TList? || t.TBlob?
    ensures r == Read(PYTHON_UNPACK, BitsOf(payload), t, offset)
  {
    hide Pow2, Pattern, InRange, BitsOf, FromBigEndian, ReadLeaf, ReadItems, Value, WholeBytes, WholePart, Whole;
    var k := Element(t);
    ghost var tok := Tokens(t)[0];
    ReadLeafBytes(PYTHON_UNPACK, payload, tok, offset);
    var at := Align(offset) / 8;
    if at + 2 > |payload| {
      return None;
    }
    var length := FromBigEndian(payload[at..at + 2]);
    var whole := WholeBytes(length, Width(k));
    var next := 8 * (at + 2 + whole);
    var xs;
    if t.TBlob? {
      var end := if at + 2 + whole <= |payload| then at + 2 + whole else |payload|;
      ByteWise(payload[at + 2..end]);
      xs := payload[at + 2..end];
    } else {
      var items := UnpackItems(payload, at + 2, whole, k);
      if items.None? {
        return None;
      }
      xs := items.value;
    }
    ReadLeafFits(PYTHON_UNPACK, BitsOf(payload), tok, offset);
    ListIsItsPatterns(k, xs, ReadLeaf(PYTHON_UNPACK, BitsOf(payload), tok, offset).value.0.items);
    r := Some((VList(xs), next));
  }

  /** `_unpack` */
  method Unpack(payload: seq<byte>, offset: nat, t: Ty) returns (r: Option<(Val, nat)>)
    ensures r == Read(PYTHON_UNPACK, BitsOf(payload), t, offset)
    decreases t, 1
  {
    hide BitsOf, NatOf;
    match t {
      case TStruct(ms) =>
        var members := UnpackAll(payload, Align(offset), ms);
        r := if members.None? then None else Some((VStruct(members.value.0), members.value.1));
      case TBit(n) =>
        var val := UnpackBits(payload, offset, n);
        r := if val.None? then None else Some((VNum(val.value), offset + n));
      case TNum(k) =>
        r := UnpackNum(payload, offset, k);
      case TList(_) =>
        r := UnpackSeq(payload, offset, t);
      case TBlob =>
        r := UnpackSeq(payload, offset, t);
    }
  }

  /** The loops over struct members and over the types of the payload. */
  method UnpackAll(payload: seq<byte>, offset: nat, ts: seq<Ty>) returns (r: Option<(seq<Val>, nat)>)
    ensures r == ReadAll(PYTHON_UNPACK, BitsOf(payload), ts, offset)
    decreases ts, 0
  {
    hide BitsOf;
    ghost var b := BitsOf(payload);
    ghost var target := ReadAll(PYTHON_UNPACK, b, ts, offset);
    var vs: seq<Val> := [];
    var next: nat := offset;
    var i := 0;
    assert ts[0..] == ts;
    if target.Some? {
      assert vs + target.value.0 == target.value.0;
    }
    while i < |ts|
      invariant 0 <= i <= |ts|
      invariant target == Continued(vs, ReadAll(PYTHON_UNPACK, b, ts[i..], next))
    {
      var v := Unpack(payload, next, ts[i]);
      if v.None? {
        return None;
      }
      ContinuedRound(PYTHON_UNPACK, b, ts[i..], next, vs);
      assert ts[i..][1..] == ts[i + 1..];
      vs := vs + [v.value.0];
      next := v.value.1;
      i := i + 1;
    }
    assert vs + [] == vs;
    r := Some((vs, next));
  }

  /** `unpack_payload` */
  method UnpackPayload(ts: seq<Ty>, payload: seq<byte>) returns (r: Option<seq<Val>>)
    ensures r == var g := ReadAll(PYTHON_UNPACK, BitsOf(payload), ts, 0);
                 if g.None? then None else Some(g.value.0)
  {
    var g := UnpackAll(payload, 0, ts);
    r := if g.None? then None else Some(g.value.0);
  }
}
