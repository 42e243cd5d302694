/**
  The C# serializer: `Serialize` and `Deserialize` over property lists. A bit
  field is a packed `uint` property. An exception is the result false or `None`.
 */
module CSharpCodec {
  import opened BitOps
  import opened BitString
  import opened BitFields
  import opened Memory
  import opened Results
  import opened Wire
  import opened Types
  import opened Interop
  import opened ByteLevel
  import opened CSharpPacking

  /** Types with a C# counterpart: packed sizes are 1 to 32 bits. */
  predicate Supported(t: Ty)
    decreases t, 1
  {
    match t
    case TBit(n) => 0 < n <= 32
    case TStruct(ms) => SupportedAll(ms)
    case _ => true
  }

  predicate SupportedAll(ts: seq<Ty>)
    decreases ts, 0
  {
    ts != [] ==> Supported(ts[0]) && SupportedAll(ts[1..])
  }

  /** An object of the type's C# class; a packed property may hold any `uint`, also one that does not fit. */
  predicate Presentable(t: Ty, v: Val)
    decreases t, 1
  {
    match t
    case TBit(_) => v.VNum? && InRange(U32, v.x)
    case TStruct(ms) => v.VStruct? && PresentableAll(ms, v.vs)
    case _ => Conforms(t, v)
  }

  predicate PresentableAll(ts: seq<Ty>, vs: seq<Val>)
    decreases ts, 0
  {
    |ts| == |vs| && (ts != [] ==> Presentable(ts[0], vs[0]) && PresentableAll(ts[1..], vs[1..]))
  }

  /** Every value of a supported type is an object of its class. */
  lemma {:induction false} ConformingIsPresentable(t: Ty, v: Val)
    requires Supported(t) && Conforms(t, v)
    ensures Presentable(t, v)
    decreases t, 1
  {
    match t
    case TBit(n) =>
      Pow2Mono(n, 32);
      assert Pow2(32) == 2 * Pow2(31);
    case TStruct(ms) => AllConformingArePresentable(ms, v.vs);
    case _ =>
  }

  lemma {:induction false} AllConformingArePresentable(ts: seq<Ty>, vs: seq<Val>)
    requires SupportedAll(ts) && ConformAll(ts, vs)
    ensures PresentableAll(ts, vs)
    decreases ts, 0
  {
    hide Supported, Conforms, Presentable;
    if ts != [] {
      ConformingIsPresentable(ts[0], vs[0]);
      AllConformingArePresentable(ts[1..], vs[1..]);
    }
  }

  // ---------------------------------------------------------------- Numbers

  function Reversed(s: seq<byte>): (r: seq<byte>)
    ensures |r| == |s|
    ensures forall i :: 0 <= i < |s| ==> r[i] == s[|s| - 1 - i]
  {
    seq(|s|, i requires 0 <= i < |s| => s[|s| - 1 - i])
  }

  /** `BitConverter.GetBytes` on a little-endian machine. */
  function GetBytes(k: Num, x: int): (r: seq<byte>)
    requires InRange(k, x)
    ensures |r| == Width(k)
  {
    Reversed(BigEndian(Pattern(k, x), Width(k)))
  }

  /** `CopyBytes`, which turns the byte order around: false when it throws. */
  method CopyBytes(src: seq<byte>, srcStart: nat, dest: array<byte>, destStart: nat, length: nat) returns (ok: bool)
    modifies dest
    ensures ok <==> srcStart + length <= |src| && destStart + length <= dest.Length
    ensures ok ==> dest[..] == Stored(old(dest[..]), destStart, Reversed(src[srcStart..srcStart + length]))
  {
    if srcStart + length > |src| || destStart + length > dest.Length {
      return false;
    }
    var srcIdx: int := srcStart;
    var destIdx: int := destStart + length - 1;
    for i := 0 to length
      invariant srcIdx == srcStart + i && destIdx == destStart + length - 1 - i
      invariant forall j :: 0 <= j < dest.Length ==>
        dest[j] ==
        if destIdx < j < destStart + length then src[srcStart + (destStart + length - 1 - j)] else old(dest[j])
    {
      dest[destIdx] := src[srcIdx];
      destIdx := destIdx - 1;
      srcIdx := srcIdx + 1;
    }
    assert dest[..] == Stored(old(dest[..]), destStart, Reversed(src[srcStart..srcStart + length]));
    ok := true;
  }

  lemma ReversedTwice(s: seq<byte>)
    ensures Reversed(Reversed(s)) == s
  {
  }

  /** `SerializePrimitive` at the next byte boundary. */
  method SerializeNumber(buffer: array<byte>, offset: nat, k: Num, x: int) returns (ok: bool, next: nat)
    requires InRange(k, x)
    modifies buffer
    ensures ok <==> Align(offset) + 8 * Width(k) <= 8 * buffer.Length
    ensures ok ==> next == Align(offset) + 8 * Width(k)
    ensures ok ==>
              BitsOf(buffer[..]) == Splice(old(BitsOf(buffer[..])), Align(offset), NatBits(Pattern(k, x), 8 * Width(k)))
  {
    hide BitsOf, NatBits, BigEndian, Stored, Pattern, InRange;
    var at := Align(offset) / 8;
    ghost var bytes := BigEndian(Pattern(k, x), Width(k));
    ghost var was := buffer[..];
    ok := CopyBytes(GetBytes(k, x), 0, buffer, at, Width(k));
    if ok {
      assert GetBytes(k, x)[0..Width(k)] == GetBytes(k, x);
      ReversedTwice(bytes);
      StoredBits(was, at, bytes);
      BigEndianBits(Pattern(k, x), Width(k));
    }
    next := 8 * (at + Width(k));
  }

  // ---------------------------------------------------------------- Serialize

  /** The element loop of `Serialize`. */
  method SerializeItems(buffer: array<byte>, at: nat, k: Num, xs: seq<int>) returns (ok: bool)
    requires at <= buffer.Length && AllInRange(k, xs)
    modifies buffer
    ensures ok == (8 * at + |Items(Width(k), Patterns(k, xs))| <= 8 * buffer.Length)
    ensures ok ==>
              BitsOf(buffer[..]) == Splice(old(BitsOf(buffer[..])), 8 * at, Items(Width(k), Patterns(k, xs)))
  {
    hide BitsOf, Items, Patterns, ItemsStored, NatBits, Pattern, InRange, Splice;
    ghost var before := BitsOf(buffer[..]);
    var offset: nat := 8 * at;
    NoItems(buffer[..], at, k, xs);
    for i := 0 to |xs|
      invariant offset % 8 == 0 && ItemsStored(before, buffer[..], at, k, xs, i, offset / 8)
    {
      ghost var was := buffer[..];
      var stored, next := SerializeNumber(buffer, offset, k, xs[i]);
      if !stored {
        TooManyItems(before, was, at, k, xs, i, offset / 8);
        return false;
      }
      ItemsRound(before, was, buffer[..], at, k, xs, i, offset / 8);
      offset := next;
    }
    AllItems(before, buffer[..], at, k, xs, offset / 8);
    ok := true;
  }

  lemma TooManyItems(before: seq<bool>, now: seq<byte>, at: nat, k: Num, xs: seq<int>, i: nat, offset: nat)
    requires ItemsStored(before, now, at, k, xs, i, offset) && i < |xs| && AllInRange(k, xs)
    requires 8 * (offset + Width(k)) > |before|
    ensures 8 * at + |Items(Width(k), Patterns(k, xs))| > |before|
  {
    hide Items, Patterns, BitsOf;
    ItemsOfPrefix(k, xs, i);
  }

  lemma AllItems(before: seq<bool>, now: seq<byte>, at: nat, k: Num, xs: seq<int>, offset: nat)
    requires ItemsStored(before, now, at, k, xs, |xs|, offset)
    ensures AllInRange(k, xs) && 8 * at + |Items(Width(k), Patterns(k, xs))| <= |before|
    ensures BitsOf(now) == Splice(before, 8 * at, Items(Width(k), Patterns(k, xs)))
  {
    hide BitsOf, Items;
    assert xs[..|xs|] == xs;
  }

  /** The list and string branches of `Serialize`. */
  method SerializeList(buffer: array<byte>, offset: nat, t: Ty, xs: seq<int>) returns (ok: bool, next: nat)
    requires offset <= 8 * buffer.Length && (t.TList? || t.TBlob?) && ListConforms(Element(t), VList(xs))
    modifies buffer
    ensures (if ok then Some((BitsOf(buffer[..]), next)) else None) ==
            old(EmitOne(CSHARP_SERIALIZE, BitsOf(buffer[..]), t, VList(xs), offset))
  {
    hide BitsOf, ListImage, EmitOne, Splice, ListConforms, Items, Patterns, AllInRange;
    var k := Element(t);
    EmitList(CSHARP_SERIALIZE, BitsOf(buffer[..]), t, xs, offset);
    ListSize(k, xs);
    var length: nat := |xs| * Width(k) % 65536;
    ok, next := SerializePrefixed(buffer, offset, k, xs, length);
  }

  lemma ListSize(k: Num, xs: seq<int>)
    requires ListConforms(k, VList(xs))
    ensures AllInRange(k, xs) && |xs| * Width(k) == |Items(Width(k), Patterns(k, xs))| / 8 < 65536
    ensures |ListImage(k, xs)| == 16 + 8 * (|xs| * Width(k))
  {
    PrefixIsLength(k, xs);
  }

  method SerializePrefixed(buffer: array<byte>, offset: nat, k: Num, xs: seq<int>, length: nat)
    returns (ok: bool, next: nat)
    requires AllInRange(k, xs) && length == |Items(Width(k), Patterns(k, xs))| / 8 < 65536
    requires |ListImage(k, xs)| == 16 + 8 * length
    modifies buffer
    ensures ok == (Align(offset) + |ListImage(k, xs)| <= 8 * buffer.Length)
    ensures ok ==> next == Align(offset) + |ListImage(k, xs)|
    ensures ok ==> BitsOf(buffer[..]) == Splice(old(BitsOf(buffer[..])), Align(offset), ListImage(k, xs))
  {
    hide BitsOf, NatBits, Items, Patterns, Pattern, InRange, Splice, ListImage;
    ghost var before := BitsOf(buffer[..]);
    U16Range(length);
    ghost var at := Align(offset) / 8;
    ok, next := SerializeNumber(buffer, offset, U16, length);
    if ok {
      ghost var mid := BitsOf(buffer[..]);
      var start := next / 8;
      ok := SerializeItems(buffer, start, k, xs);
      next := next + 8 * length;
      if ok {
        ListSpliced(before, mid, BitsOf(buffer[..]), at, k, xs, length);
      }
    }
  }

  /** `Serialize` */
  method Serialize(buffer: array<byte>, offset: nat, t: Ty, v: Val) returns (ok: bool, next: nat)
    requires offset <= 8 * buffer.Length && Supported(t) && Presentable(t, v)
    modifies buffer
    ensures (if ok then Some((BitsOf(buffer[..]), next)) else None) ==
            old(EmitOne(CSHARP_SERIALIZE, BitsOf(buffer[..]), t, v, offset))
    decreases t, 1
  {
    hide BitsOf, EmitOne, Splice, NatBits;
    match t {
      case TNum(k) =>
        EmitNumber(CSHARP_SERIALIZE, BitsOf(buffer[..]), k, v.x, offset);
        ok, next := SerializeNumber(buffer, offset, k, v.x);
      case TBit(n) =>
        EmitPacked(BitsOf(buffer[..]), n, v.x, offset);
        ok, next := SerializePacked(buffer, offset, U32, n, v.x);
      case TList(_) =>
        ok, next := SerializeList(buffer, offset, t, v.xs);
      case TBlob =>
        ok, next := SerializeList(buffer, offset, t, v.xs);
      case TStruct(ms) =>
        EmitStruct(CSHARP_SERIALIZE, BitsOf(buffer[..]), ms, v.vs, offset);
        ok, next := SerializeAll(buffer, offset, ms, v.vs);
    }
  }

  /** A packed property is written exactly when its value fits and there is room. */
  lemma EmitPacked(b: seq<bool>, n: nat, x: int, p: nat)
    requires n > 0
    ensures EmitOne(CSHARP_SERIALIZE, b, TBit(n), VNum(x), p) ==
            if FitsBits(U32, x, n) && p + n <= |b| then Some((Splice(b, p, NatBits(x, n)), p + n)) else None
  {
    hide Splice, NatBits, NatOf, Put, End;
    if FitsBits(U32, x, n) {
      NatOfNatBits(x, n);
      EmitBits(CSHARP_SERIALIZE, b, n, x, p);
    }
  }

  /** The loop over properties, and over the arguments of a message. */
  method SerializeAll(buffer: array<byte>, offset: nat, ts: seq<Ty>, vs: seq<Val>) returns (ok: bool, next: nat)
    requires offset <= 8 * buffer.Length && SupportedAll(ts) && PresentableAll(ts, vs)
    modifies buffer
    ensures (if ok then Some((BitsOf(buffer[..]), next)) else None) ==
            old(EmitAll(CSHARP_SERIALIZE, BitsOf(buffer[..]), ts, vs, offset))
    decreases ts, 0
  {
    hide BitsOf, EmitOne, EmitAll, Presentable, Supported;
    ghost var target := EmitAll(CSHARP_SERIALIZE, BitsOf(buffer[..]), ts, vs, offset);
    next := offset;
    var i := 0;
    assert ts[0..] == ts && vs[0..] == vs;
    while i < |ts|
      invariant 0 <= i <= |ts| == |vs| && next <= 8 * buffer.Length
      invariant SupportedAll(ts[i..]) && PresentableAll(ts[i..], vs[i..])
      invariant target == EmitAll(CSHARP_SERIALIZE, BitsOf(buffer[..]), ts[i..], vs[i..], next)
    {
      EmitCons(CSHARP_SERIALIZE, BitsOf(buffer[..]), ts[i..], vs[i..], next);
      assert ts[i..][1..] == ts[i + 1..] && vs[i..][1..] == vs[i + 1..];
      ok, next := Serialize(buffer, next, ts[i], vs[i]);
      if !ok {
        return false, offset;
      }
      i := i + 1;
    }
    assert ts[i..] == [] && vs[i..] == [];
    NothingEmitted(CSHARP_SERIALIZE, BitsOf(buffer[..]), next);
    ok := true;
  }

  // ---------------------------------------------------------------- Deserialize

  /** `DeserializePrimitive`: the bytes at the next boundary, turned around, as a number. */
  method DeserializeNumber(buffer: seq<byte>, offset: nat, k: Num) returns (r: Option<(int, nat)>)
    ensures var at := Align(offset) / 8;
            r == if at + Width(k) > |buffer| then None
                 else Some((Value(k, FromBigEndian(buffer[at..at + Width(k)])), offset + 8 * Width(k)))
  {
    hide FromBigEndian, Value, BigEndian;
    var at := Align(offset) / 8;
    var tmp := new byte[Width(k)](_ => 0);
    var ok := CopyBytes(buffer, at, tmp, 0, Width(k));
    if !ok {
      return None;
    }
    assert tmp[..] == Reversed(buffer[at..at + Width(k)]);
    ReversedTwice(buffer[at..at + Width(k)]);
    r := Some((Value(k, FromBigEndian(Reversed(tmp[..]))), offset + 8 * Width(k)));
  }

  /** The element loop of `Deserialize` over `whole` bytes from byte `start` on. */
  method DeserializeItems(buffer: seq<byte>, start: nat, whole: nat, k: Num) returns (r: Option<seq<int>>)
    requires Whole(whole, Width(k)) && start <= |buffer|
    ensures r.Some? <==> start + whole <= |buffer|
    ensures r.Some? ==> AllInRange(k, r.value) &&
                        Patterns(k, r.value) == Elements(buffer, Width(k), start, start + whole)
  {
    hide Collected, Value, ReadItems, BitsOf, FromBigEndian, Elements, Patterns, AllInRange, Whole;
    var xs: seq<int> := [];
    var o: nat := start;
    var end := start + whole;
    CollectedNone(buffer, k, start, end);
    while o < end
      invariant start <= o <= end && o <= |buffer|
      invariant Collected(buffer, k, start, o, end, xs) && Whole(end - o, Width(k))
    {
      WholeStep(end - o, Width(k));
      var x := DeserializeNumber(buffer, 8 * o, k);
      if x.None? {
        return None;
      }
      CollectedRound(buffer, k, start, o, end, xs);
      xs := xs + [x.value.0];
      o := o + Width(k);
    }
    CollectedAll(buffer, k, start, end, xs);
    r := Some(xs);
  }

  /** The list and string branches of `Deserialize`; the position keeps its bit offset. */
  method DeserializeList(buffer: seq<byte>, offset: nat, t: Ty) returns (r: Option<(Val, nat)>)
    requires t.TList? || t.TBlob?
    ensures r == Read(CSHARP_DESERIALIZE, BitsOf(buffer), t, offset)
  {
    hide Pow2, Pattern, InRange, BitsOf, FromBigEndian, ReadLeaf, ReadItems, Value, WholeBytes, WholePart, Whole,
         Elements;
    var k := Element(t);
    ghost var tok := Tokens(t)[0];
    ReadLeafBytes(CSHARP_DESERIALIZE, buffer, tok, offset);
    var at := Align(offset) / 8;
    var len := DeserializeNumber(buffer, offset, U16);
    if len.None? {
      return None;
    }
    PrefixValue(buffer[at..at + 2]);
    var whole := WholeBytes(len.value.0, Width(k));
    var items := DeserializeItems(buffer, at + 2, whole, k);
    if items.None? {
      return None;
    }
    ReadLeafFits(CSHARP_DESERIALIZE, BitsOf(buffer), tok, offset);
    ListIsItsPatterns(k, items.value, ReadLeaf(CSHARP_DESERIALIZE, BitsOf(buffer), tok, offset).value.0.items);
    r := Some((VList(items.value), len.value.1 + 8 * whole));
  }

  lemma PrefixValue(bytes: seq<byte>)
    requires |bytes| == 2
    ensures Value(U16, FromBigEndian(bytes)) == FromBigEndian(bytes)
  {
  }

  /** A packed property. */
  method DeserializeBits(buffer: seq<byte>, offset: nat, n: nat) returns (r: Option<(Val, nat)>)
    requires 0 < n <= 32
    ensures r == Read(CSHARP_DESERIALIZE, BitsOf(buffer), TBit(n), offset)
  {
    hide BitsOf, NatOf, Truncated, Extended;
    var x := DeserializePacked(buffer, offset, U32, n);
    if x.Some? {
      UnsignedBits(BitsOf(buffer)[offset..offset + n]);
    }
    r := if x.None? then None else Some((VNum(x.value), offset + n));
  }

  /** `Deserialize` */
  method Deserialize(buffer: seq<byte>, offset: nat, t: Ty) returns (r: Option<(Val, nat)>)
    requires Supported(t)
    ensures r == Read(CSHARP_DESERIALIZE, BitsOf(buffer), t, offset)
    decreases t, 1
  {
    hide BitsOf, Read, FromBigEndian, ReadAll, Value, NatOf;
    match t {
      case TNum(k) =>
        ReadNumBytes(CSHARP_DESERIALIZE, buffer, k, offset);
        var x := DeserializeNumber(buffer, offset, k);
        r := if x.None? then None else Some((VNum(x.value.0), x.value.1));
      case TBit(n) =>
        r := DeserializeBits(buffer, offset, n);
      case TList(_) =>
        r := DeserializeList(buffer, offset, t);
      case TBlob =>
        r := DeserializeList(buffer, offset, t);
      case TStruct(ms) =>
        ReadStruct(CSHARP_DESERIALIZE, BitsOf(buffer), ms, offset);
        var members := DeserializeAll(buffer, offset, ms);
        r := if members.None? then None else Some((VStruct(members.value.0), members.value.1));
    }
  }

  lemma UnsignedBits(bits: seq<bool>)
    requires 0 < |bits| <= 32
    ensures Truncated(U32, Extended(U32, NatOf(bits), |bits|)) == NatOf(bits)
  {
    hide NatOf, Truncated;
    NatOfBound(bits);
    Pow2Mono(|bits|, 32);
    assert Pow2(32) == 2 * Pow2(31);
    TruncatedInRange(U32, NatOf(bits));
  }

  /** The loop over properties. */
  method DeserializeAll(buffer: seq<byte>, offset: nat, ts: seq<Ty>) returns (r: Option<(seq<Val>, nat)>)
    requires SupportedAll(ts)
    ensures r == ReadAll(CSHARP_DESERIALIZE, BitsOf(buffer), ts, offset)
    decreases ts, 0
  {
    hide BitsOf;
    ghost var b := BitsOf(buffer);
    ghost var target := ReadAll(CSHARP_DESERIALIZE, b, ts, offset);
    var vs: seq<Val> := [];
    var next: nat := offset;
    var i := 0;
    assert ts[0..] == ts;
    if target.Some? {
      assert vs + target.value.0 == target.value.0;
    }
    while i < |ts|
      invariant 0 <= i <= |ts| && SupportedAll(ts[i..])
      invariant target == Continued(vs, ReadAll(CSHARP_DESERIALIZE, b, ts[i..], next))
    {
      assert ts[i..][1..] == ts[i + 1..];
      var v := Deserialize(buffer, next, ts[i]);
      if v.None? {
        return None;
      }
      ContinuedRound(CSHARP_DESERIALIZE, b, ts[i..], next, vs);
      vs := vs + [v.value.0];
      next := v.value.1;
      i := i + 1;
    }
    assert vs + [] == vs;
    r := Some((vs, next));
  }
}
