/**
  The code that the C generator emits for a struct, `T_store` and `T_load`: a
  straight-line program over a moving pointer with bit offsets relative to it,
  its emission, and its execution on the C runtime.
 */
module CHelpers {
  import opened BitOps
  import opened BitString
  import opened BitFields
  import opened Memory
  import opened Results
  import opened Wire
  import opened Types
  import opened Interop
  import opened ByteLevel
  import opened CRuntime

  // ---------------------------------------------------------------- Emission

  datatype Instr =
    | FieldCall(member: nat, offset: nat, size: nat)   // bit field access relative to the pointer
    | Call(member: nat)                                // load or store that moves the pointer
    | Bump(bytes: nat)                                 // pointer increment

  /** `_byte_align` */
  function AlignCode(offset: nat): seq<Instr> {
    if offset > 0 then [Bump(Align(offset) / 8)] else []
  }

  /** The code for the members from `i` on when `offset` bits of a bit run are behind the pointer. */
  function HelperFrom(ms: seq<Ty>, i: nat, offset: nat): seq<Instr>
    requires i <= |ms|
    decreases |ms| - i
  {
    if i == |ms| then AlignCode(offset)
    else if ms[i].TBit? then [FieldCall(i, offset, ms[i].n)] + HelperFrom(ms, i + 1, offset + ms[i].n)
    else AlignCode(offset) + [Call(i)] + HelperFrom(ms, i + 1, 0)
  }

  /** The first instruction tells which member comes next. */
  lemma CodeHead(ms: seq<Ty>, i: nat, offset: nat)
    requires i <= |ms|
    ensures var code := HelperFrom(ms, i, offset);
            if code == [] then i == |ms| && offset == 0
            else
              match code[0]
              case FieldCall(m, o, n) =>
                && m == i < |ms| && o == offset && ms[i] == TBit(n)
                && code[1..] == HelperFrom(ms, i + 1, offset + n)
              case Call(m) =>
                m == i < |ms| && offset == 0 && !ms[i].TBit? && code[1..] == HelperFrom(ms, i + 1, 0)
              case Bump(n) =>
                && offset > 0 && n == Align(offset) / 8 && (i == |ms| || !ms[i].TBit?)
                && code[1..] == HelperFrom(ms, i, 0)
  {
  }

  /** `_define_type_helper` for store and load, which emit the same sequence of accesses. */
  method DefineHelper(ms: seq<Ty>) returns (code: seq<Instr>)
    ensures code == HelperFrom(ms, 0, 0)
  {
    hide HelperFrom;
    code := [];
    var offset: nat := 0;
    for i := 0 to |ms|
      invariant code + HelperFrom(ms, i, offset) == HelperFrom(ms, 0, 0)
    {
      HelperStep(ms, i, offset);
      if ms[i].TBit? {
        Regrouped(code, [FieldCall(i, offset, ms[i].n)], HelperFrom(ms, i + 1, offset + ms[i].n));
        code := code + [FieldCall(i, offset, ms[i].n)];
        offset := offset + ms[i].n;
      } else {
        Regrouped(code, AlignCode(offset), [Call(i)] + HelperFrom(ms, i + 1, 0));
        if offset > 0 {
          code := code + [Bump(Align(offset) / 8)];
          offset := 0;
        } else {
          assert code + [] == code;
        }
        Regrouped(code, [Call(i)], HelperFrom(ms, i + 1, 0));
        code := code + [Call(i)];
      }
    }
    HelperStep(ms, |ms|, offset);
    code := code + AlignCode(offset);
  }

  lemma HelperStep(ms: seq<Ty>, i: nat, offset: nat)
    requires i <= |ms|
    ensures HelperFrom(ms, i, offset) ==
            if i == |ms| then AlignCode(offset)
            else if ms[i].TBit? then [FieldCall(i, offset, ms[i].n)] + HelperFrom(ms, i + 1, offset + ms[i].n)
            else AlignCode(offset) + ([Call(i)] + HelperFrom(ms, i + 1, 0))
  {
    if i < |ms| {
      Regrouped(AlignCode(offset), [Call(i)], HelperFrom(ms, i + 1, 0));
    }
  }

  lemma Regrouped(a: seq<Instr>, b: seq<Instr>, c: seq<Instr>)
    ensures a + (b + c) == a + b + c
  {
  }

  // ---------------------------------------------------------------- C values

  /** A member of a C struct; a slice points into memory and counts elements. */
  datatype CVal = CNum(x: int) | CSlice(ptr: nat, len: nat) | CStruct(fields: seq<CVal>)

  /** The value is of its C type and its slices lie in a memory of `size` bytes. */
  predicate InMemory(size: nat, t: Ty, c: CVal)
    decreases t, 1
  {
    match t
    case TNum(k) => c.CNum? && InRange(k, c.x)
    case TBit(n) => c.CNum? && 0 <= c.x < Pow2(n)
    case TList(k) => SliceInMemory(size, k, c)
    case TBlob => SliceInMemory(size, U8, c)
    case TStruct(ms) => c.CStruct? && InMemoryAll(size, ms, c.fields)
  }

  predicate SliceInMemory(size: nat, k: Num, c: CVal) {
    c.CSlice? && c.len < 65536 && (Span(k, c.len) > 0 ==> c.ptr + Span(k, c.len) <= size)
  }

  predicate InMemoryAll(size: nat, ts: seq<Ty>, cs: seq<CVal>)
    decreases ts, 0
  {
    |ts| == |cs| && (ts != [] ==> InMemory(size, ts[0], cs[0]) && InMemoryAll(size, ts[1..], cs[1..]))
  }

  function SliceBytes(mem: seq<byte>, k: Num, c: CVal): seq<byte>
    requires SliceInMemory(|mem|, k, c)
  {
    Block(mem, c.ptr, Span(k, c.len))
  }

  /** The protocol value that a C value is sent as; `SentAsHeldIff` says when that is all that it holds. */
  function Denote(mem: seq<byte>, t: Ty, c: CVal): Val
    requires InMemory(|mem|, t, c)
    decreases t, 1
  {
    match t
    case TNum(_) => VNum(c.x)
    case TBit(_) => VNum(c.x)
    case TList(k) => VList(Contents(SliceBytes(mem, k, c), k))
    case TBlob => VList(Contents(SliceBytes(mem, U8, c), U8))
    case TStruct(ms) => VStruct(DenoteAll(mem, ms, c.fields))
  }

  function DenoteAll(mem: seq<byte>, ts: seq<Ty>, cs: seq<CVal>): (vs: seq<Val>)
    requires InMemoryAll(|mem|, ts, cs)
    ensures |vs| == |ts|
    decreases ts, 0
  {
    if ts == [] then [] else [Denote(mem, ts[0], cs[0])] + DenoteAll(mem, ts[1..], cs[1..])
  }

  // ---------------------------------------------------------------- What 16 bits cut

  /** The C value with all elements of its slices in a memory of `size` bytes. */
  predicate HeldIn(size: nat, t: Ty, c: CVal)
    decreases t, 1
  {
    match t
    case TNum(k) => c.CNum? && InRange(k, c.x)
    case TBit(n) => c.CNum? && 0 <= c.x < Pow2(n)
    case TList(k) => SliceHeldIn(size, k, c)
    case TBlob => SliceHeldIn(size, U8, c)
    case TStruct(ms) => c.CStruct? && HeldInAll(size, ms, c.fields)
  }

  predicate SliceHeldIn(size: nat, k: Num, c: CVal) {
    c.CSlice? && c.len < 65536 && (c.len > 0 ==> c.ptr + Extent(k, c.len) <= size)
  }

  predicate HeldInAll(size: nat, ts: seq<Ty>, cs: seq<CVal>)
    decreases ts, 0
  {
    |ts| == |cs| && (ts != [] ==> HeldIn(size, ts[0], cs[0]) && HeldInAll(size, ts[1..], cs[1..]))
  }

  /** The protocol value with every element that the slices hold. */
  function Held(mem: seq<byte>, t: Ty, c: CVal): Val
    requires HeldIn(|mem|, t, c)
    decreases t, 1
  {
    match t
    case TNum(_) => VNum(c.x)
    case TBit(_) => VNum(c.x)
    case TList(k) => VList(Contents(Block(mem, c.ptr, Extent(k, c.len)), k))
    case TBlob => VList(Contents(Block(mem, c.ptr, Extent(U8, c.len)), U8))
    case TStruct(ms) => VStruct(HeldAll(mem, ms, c.fields))
  }

  function HeldAll(mem: seq<byte>, ts: seq<Ty>, cs: seq<CVal>): (vs: seq<Val>)
    requires HeldInAll(|mem|, ts, cs)
    ensures |vs| == |ts|
    decreases ts, 0
  {
    if ts == [] then [] else [Held(mem, ts[0], cs[0])] + HeldAll(mem, ts[1..], cs[1..])
  }

  /** Every slice takes less than 65536 bytes. */
  predicate Uncut(t: Ty, c: CVal)
    decreases t, 1
  {
    match t
    case TList(k) => c.CSlice? ==> Extent(k, c.len) < 65536
    case TBlob => true
    case TStruct(ms) => c.CStruct? ==> UncutAll(ms, c.fields)
    case _ => true
  }

  predicate UncutAll(ts: seq<Ty>, cs: seq<CVal>)
    decreases ts, 0
  {
    ts != [] && cs != [] ==> Uncut(ts[0], cs[0]) && UncutAll(ts[1..], cs[1..])
  }

  lemma SliceSentIff(mem: seq<byte>, k: Num, c: CVal)
    requires SliceHeldIn(|mem|, k, c)
    ensures SliceInMemory(|mem|, k, c)
    ensures Contents(SliceBytes(mem, k, c), k) == Contents(Block(mem, c.ptr, Extent(k, c.len)), k) <==>
            Extent(k, c.len) < 65536
    ensures Width(k) == 1 ==> Extent(k, c.len) < 65536
  {
    hide Contents, Extent;
    var n := Span(k, c.len) / Width(k);
    SpanIsExtent(k, c.len);
    SpanMultiple(k, c.len);
    WholeCount(k, Span(k, c.len));
    CountOfBytes(SliceBytes(mem, k, c), k, n);
    CountOfBytes(Block(mem, c.ptr, Extent(k, c.len)), k, c.len);
  }

  lemma WholeCount(k: Num, n: nat)
    requires n % Width(k) == 0
    ensures Extent(k, n / Width(k)) == n
  {
  }

  lemma SpanIsExtent(k: Num, len: nat)
    requires len < 65536
    ensures Extent(k, len) < 65536 <==> Span(k, len) / Width(k) == len
    ensures Extent(k, len) < 65536 ==> Span(k, len) == Extent(k, len)
    ensures Span(k, len) <= Extent(k, len) && (Extent(k, len) > 0 <==> len > 0)
    ensures Width(k) == 1 ==> Extent(k, len) < 65536
  {
  }

  /** A value is sent with all that it holds if and only if no slice takes 65536 bytes or more. */
  lemma {:induction false} SentAsHeldIff(mem: seq<byte>, t: Ty, c: CVal)
    requires HeldIn(|mem|, t, c)
    ensures InMemory(|mem|, t, c)
    ensures Denote(mem, t, c) == Held(mem, t, c) <==> Uncut(t, c)
    decreases t, 1
  {
    hide Contents, Block, Extent, Span;
    match t
    case TList(k) => SliceSentIff(mem, k, c);
    case TBlob => SliceSentIff(mem, U8, c);
    case TStruct(ms) => SentAsHeldAllIff(mem, ms, c.fields);
    case _ =>
  }

  lemma {:induction false} SentAsHeldAllIff(mem: seq<byte>, ts: seq<Ty>, cs: seq<CVal>)
    requires HeldInAll(|mem|, ts, cs)
    ensures InMemoryAll(|mem|, ts, cs)
    ensures DenoteAll(mem, ts, cs) == HeldAll(mem, ts, cs) <==> UncutAll(ts, cs)
    decreases ts, 0
  {
    hide Denote, Held, HeldIn, InMemory, Uncut;
    if ts != [] {
      SentAsHeldIff(mem, ts[0], cs[0]);
      SentAsHeldAllIff(mem, ts[1..], cs[1..]);
      var x, y := DenoteAll(mem, ts, cs), HeldAll(mem, ts, cs);
      assert x == [x[0]] + x[1..] && y == [y[0]] + y[1..];
      assert x[1..] == DenoteAll(mem, ts[1..], cs[1..]) && y[1..] == HeldAll(mem, ts[1..], cs[1..]);
    }
  }

  /**
    Elements wider than a byte: a slice of a whole number of 65536 bytes is allocated
    nothing and sent as the empty list.
   */
  lemma CutToNothing(mem: seq<byte>, k: Num, ptr: nat) returns (c: CVal)
    requires Width(k) > 1 && ptr + 65536 <= |mem|
    ensures HeldIn(|mem|, TList(k), c) && c.ptr == ptr && c.len > 0
    ensures Span(k, c.len) == 0 && InMemory(|mem|, TList(k), c) && Denote(mem, TList(k), c) == VList([])
    ensures Held(mem, TList(k), c) != VList([])
  {
    hide Contents;
    assert Width(k) == 2 || Width(k) == 4 || Width(k) == 8;
    c := CSlice(ptr, 65536 / Width(k));
    assert Extent(k, c.len) == 65536;
    SentAsHeldIff(mem, TList(k), c);
    NothingSent(k);
  }

  lemma NothingSent(k: Num)
    ensures Contents([], k) == []
  {
    assert BitsOf([]) == [];
  }

  // ---------------------------------------------------------------- Storing

  /** Bit position after a C value has been stored from `p` on. */
  function After(size: nat, t: Ty, c: CVal, p: nat): (e: nat)
    requires InMemory(size, t, c)
    ensures p <= e
    decreases t, 1
  {
    match t
    case TNum(k) => Align(p) + 8 * Width(k)
    case TBit(n) => p + n
    case TList(k) => Align(p) + 16 + 8 * Span(k, c.len)
    case TBlob => Align(p) + 16 + 8 * Span(U8, c.len)
    case TStruct(ms) => Align(AfterAll(size, ms, c.fields, Align(p)))
  }

  function AfterAll(size: nat, ts: seq<Ty>, cs: seq<CVal>, p: nat): (e: nat)
    requires InMemoryAll(size, ts, cs)
    ensures p <= e
    decreases ts, 0
  {
    if ts == [] then p else AfterAll(size, ts[1..], cs[1..], After(size, ts[0], cs[0], p))
  }

  /** Memory after value `v` has been stored from bit `p` on. */
  function Written(mem: seq<byte>, t: Ty, v: Val, p: nat): (r: seq<byte>)
    ensures |r| == |mem|
  {
    match EmitOne(EMITTED_C, BitsOf(mem), t, v, p)
    case None => mem
    case Some((b, _)) => BytesOf(b)
  }

  /**
    The value that storing from bit `p` on really puts into the message: every
    slice is copied as it is when its turn comes, after everything before it has
    been written, possibly over it.
   */
  function Turn(mem: seq<byte>, t: Ty, c: CVal, p: nat): Val
    requires InMemory(|mem|, t, c) && After(|mem|, t, c, p) <= 8 * |mem|
    decreases t, 1
  {
    match t
    case TNum(_) => VNum(c.x)
    case TBit(_) => VNum(c.x)
    case TList(k) => VList(Contents(Moved(mem, Align(p) / 8, c.ptr, Span(k, c.len)), k))
    case TBlob => VList(Contents(Moved(mem, Align(p) / 8, c.ptr, Span(U8, c.len)), U8))
    case TStruct(ms) => VStruct(TurnAll(mem, ms, c.fields, Align(p)))
  }

  function TurnAll(mem: seq<byte>, ts: seq<Ty>, cs: seq<CVal>, p: nat): (vs: seq<Val>)
    requires InMemoryAll(|mem|, ts, cs) && AfterAll(|mem|, ts, cs, p) <= 8 * |mem|
    ensures |vs| == |ts|
    decreases ts, 0
  {
    if ts == [] then []
    else
      var v := Turn(mem, ts[0], cs[0], p);
      [v] + TurnAll(Written(mem, ts[0], v, p), ts[1..], cs[1..], After(|mem|, ts[0], cs[0], p))
  }

  /**
    No slice is overwritten before it is stored, and none begins where its length
    goes: it lies behind that place, or before `base`, where storing begins.
   */
  predicate Clear(size: nat, t: Ty, c: CVal, p: nat, base: nat)
    requires InMemory(size, t, c)
    decreases t, 1
  {
    match t
    case TList(k) => SliceClear(k, c, p, base)
    case TBlob => SliceClear(U8, c, p, base)
    case TStruct(ms) => ClearAll(size, ms, c.fields, Align(p), base)
    case _ => true
  }

  predicate SliceClear(k: Num, c: CVal, p: nat, base: nat)
    requires c.CSlice?
  {
    Span(k, c.len) > 0 ==> Align(p) < 8 * c.ptr || c.ptr + Span(k, c.len) <= base
  }

  predicate ClearAll(size: nat, ts: seq<Ty>, cs: seq<CVal>, p: nat, base: nat)
    requires InMemoryAll(size, ts, cs)
    decreases ts, 0
  {
    ts != [] ==>
      Clear(size, ts[0], cs[0], p, base) && ClearAll(size, ts[1..], cs[1..], After(size, ts[0], cs[0], p), base)
  }

  // ---------------------------------------------------------------- Storing preserves what is still to come

  lemma EmitSlice(mem: seq<byte>, t: Ty, c: CVal, p: nat)
    requires (t.TList? || t.TBlob?) && InMemory(|mem|, t, c)
    requires After(|mem|, t, c, p) <= 8 * |mem|
    ensures var n := Span(Element(t), c.len);
            && Align(p) + 16 + 8 * n <= 8 * |mem|
            && EmitOne(EMITTED_C, BitsOf(mem), t, Turn(mem, t, c, p), p) ==
               Some((Splice(BitsOf(mem), Align(p), NatBits(n, 16) + BitsOf(Moved(mem, Align(p) / 8, c.ptr, n))),
                     Align(p) + 16 + 8 * n))
  {
    hide EmitOne, BitsOf, Splice, NatBits, Contents, Moved, Align, Span, Turn, InMemory;
    SliceTurn(mem, t, c, p);
    EmitBlock(BitsOf(mem), t, Moved(mem, Align(p) / 8, c.ptr, Span(Element(t), c.len)), p, c.len);
  }

  lemma SliceTurn(mem: seq<byte>, t: Ty, c: CVal, p: nat)
    requires (t.TList? || t.TBlob?) && InMemory(|mem|, t, c)
    ensures c.CSlice? && SliceInMemory(|mem|, Element(t), c)
    ensures After(|mem|, t, c, p) == Align(p) + 16 + 8 * Span(Element(t), c.len)
    ensures Denote(mem, t, c) == VList(Contents(Block(mem, c.ptr, Span(Element(t), c.len)), Element(t)))
    ensures After(|mem|, t, c, p) <= 8 * |mem| ==>
              Turn(mem, t, c, p) ==
              VList(Contents(Moved(mem, Align(p) / 8, c.ptr, Span(Element(t), c.len)), Element(t)))
  {
    hide Contents, Block, Span, Moved;
  }

  lemma EmitBlock(b: seq<bool>, t: Ty, bytes: seq<byte>, p: nat, len: nat)
    requires (t.TList? || t.TBlob?) && |bytes| == Span(Element(t), len)
    ensures EmitOne(EMITTED_C, b, t, VList(Contents(bytes, Element(t))), p) ==
            if Align(p) + 16 + 8 * |bytes| <= |b|
            then Some((Splice(b, Align(p), NatBits(|bytes|, 16) + BitsOf(bytes)), Align(p) + 16 + 8 * |bytes|))
            else None
  {
    hide EmitOne, ListConforms, BitsOf, Splice, NatBits, Contents, ListImage, Align, Span, Whole;
    var k := Element(t);
    SpanWhole(k, len);
    ContentsImage(bytes, k);
    EmitList(EMITTED_C, b, t, Contents(bytes, k), p);
  }

  lemma EmitSmall(b: seq<bool>, t: Ty, x: int, p: nat)
    requires t.TNum? || t.TBit?
    requires Conforms(t, VNum(x))
    ensures EmitOne(EMITTED_C, b, t, VNum(x), p) ==
            match t
            case TNum(k) =>
              if Align(p) + 8 * Width(k) <= |b|
              then Some((Splice(b, Align(p), NatBits(Pattern(k, x), 8 * Width(k))), Align(p) + 8 * Width(k)))
              else None
            case TBit(n) => if p + n <= |b| then Some((Splice(b, p, NatBits(x, n)), p + n)) else None
            case _ => None
  {
    if t.TNum? {
      EmitNumber(EMITTED_C, b, t.k, x, p);
    } else {
      NatOfNatBits(x, t.n);
      EmitBits(EMITTED_C, b, t.n, x, p);
    }
  }

  /** A C value conforms to its type, and storing it ends where `After` says. */
  lemma {:induction false} EmitAfter(mem: seq<byte>, t: Ty, c: CVal, p: nat)
    requires InMemory(|mem|, t, c)
    ensures Conforms(t, Denote(mem, t, c))
    ensures End(EMITTED_C, Tokens(t), Leaves(t, Denote(mem, t, c)), p) == After(|mem|, t, c, p)
    decreases t, 1
  {
    match t
    case TNum(k) =>
      SingleToken(EMITTED_C, BitsOf(mem), Prim(Width(k)), Leaf.Num(Pattern(k, c.x)), p);
    case TBit(n) =>
      SingleToken(EMITTED_C, BitsOf(mem), Bits(n), Leaf.Num(c.x), p);
    case TList(k) =>
      SliceAfter(SliceBytes(mem, k, c), k, c.len, List(Width(k), false), p);
    case TBlob =>
      SliceAfter(SliceBytes(mem, U8, c), U8, c.len, List(1, true), p);
    case TStruct(ms) =>
      EmitAfterAll(mem, ms, c.fields, Align(p));
      BracketEnd(EMITTED_C, TokensAll(ms), LeavesAll(ms, DenoteAll(mem, ms, c.fields)), p);
  }

  lemma SliceAfter(bytes: seq<byte>, k: Num, len: nat, t: Token, p: nat)
    requires |bytes| == Span(k, len) && t.List? && t.w == Width(k)
    ensures var xs := Contents(bytes, k);
            && ListConforms(k, VList(xs))
            && Typed([t], [Arr(Patterns(k, xs))])
            && End(EMITTED_C, [t], [Arr(Patterns(k, xs))], p) == Align(p) + 16 + 8 * Span(k, len)
  {
    hide BitsOf, NatBits, Contents, Align, Patterns;
    SpanWhole(k, len);
    ContentsImage(bytes, k);
    SingleToken(EMITTED_C, [], t, Arr(Patterns(k, Contents(bytes, k))), p);
  }

  /** What is really stored conforms too, and ends at the same place. */
  lemma {:induction false} TurnAfter(mem: seq<byte>, t: Ty, c: CVal, p: nat)
    requires InMemory(|mem|, t, c) && After(|mem|, t, c, p) <= 8 * |mem|
    ensures Conforms(t, Turn(mem, t, c, p))
    ensures End(EMITTED_C, Tokens(t), Leaves(t, Turn(mem, t, c, p)), p) == After(|mem|, t, c, p)
    decreases t, 1
  {
    hide Written, Moved, Contents, Pattern, InRange, Patterns;
    match t
    case TNum(k) =>
      SingleToken(EMITTED_C, [], Prim(Width(k)), Leaf.Num(Pattern(k, c.x)), p);
    case TBit(n) =>
      SingleToken(EMITTED_C, [], Bits(n), Leaf.Num(c.x), p);
    case TList(k) =>
      SliceAfter(Moved(mem, Align(p) / 8, c.ptr, Span(k, c.len)), k, c.len, List(Width(k), false), p);
    case TBlob =>
      SliceAfter(Moved(mem, Align(p) / 8, c.ptr, Span(U8, c.len)), U8, c.len, List(1, true), p);
    case TStruct(ms) =>
      TurnAfterAll(mem, ms, c.fields, Align(p));
      BracketEnd(EMITTED_C, TokensAll(ms), LeavesAll(ms, TurnAll(mem, ms, c.fields, Align(p))), p);
  }

  lemma {:induction false} TurnAfterAll(mem: seq<byte>, ts: seq<Ty>, cs: seq<CVal>, p: nat)
    requires InMemoryAll(|mem|, ts, cs) && AfterAll(|mem|, ts, cs, p) <= 8 * |mem|
    ensures ConformAll(ts, TurnAll(mem, ts, cs, p))
    ensures EndOf(EMITTED_C, ts, TurnAll(mem, ts, cs, p), p) == AfterAll(|mem|, ts, cs, p)
    decreases ts, 0
  {
    hide Written, Conforms, Tokens, Leaves;
    if ts != [] {
      TurnAfter(mem, ts[0], cs[0], p);
      var q, v := After(|mem|, ts[0], cs[0], p), Turn(mem, ts[0], cs[0], p);
      TurnAfterAll(Written(mem, ts[0], v, p), ts[1..], cs[1..], q);
      var vs := TurnAll(mem, ts, cs, p);
      assert vs[1..] == TurnAll(Written(mem, ts[0], v, p), ts[1..], cs[1..], q);
      EndAppend(EMITTED_C, Tokens(ts[0]), TokensAll(ts[1..]), Leaves(ts[0], vs[0]), LeavesAll(ts[1..], vs[1..]), p);
    }
  }

  lemma {:induction false} EmitAfterAll(mem: seq<byte>, ts: seq<Ty>, cs: seq<CVal>, p: nat)
    requires InMemoryAll(|mem|, ts, cs)
    ensures ConformAll(ts, DenoteAll(mem, ts, cs))
    ensures EndOf(EMITTED_C, ts, DenoteAll(mem, ts, cs), p) == AfterAll(|mem|, ts, cs, p)
    decreases ts, 0
  {
    if ts != [] {
      EmitAfter(mem, ts[0], cs[0], p);
      var q := After(|mem|, ts[0], cs[0], p);
      EmitAfterAll(mem, ts[1..], cs[1..], q);
      var vs := DenoteAll(mem, ts, cs);
      assert vs[1..] == DenoteAll(mem, ts[1..], cs[1..]);
      EndAppend(EMITTED_C, Tokens(ts[0]), TokensAll(ts[1..]), Leaves(ts[0], vs[0]), LeavesAll(ts[1..], vs[1..]), p);
    }
  }

  /** The memories agree from bit `p` on and before byte `base`. */
  ghost predicate Same(mem: seq<byte>, mem': seq<byte>, p: nat, base: nat) {
    |mem| == |mem'| && forall i :: 0 <= i < |mem| && (p <= 8 * i || i < base) ==> mem[i] == mem'[i]
  }

  lemma SameBits(mem: seq<byte>, mem': seq<byte>, p: nat, e: nat, base: nat)
    requires |mem| == |mem'| && 8 * base <= p <= e <= 8 * |mem|
    requires BitsOf(mem)[..p] == BitsOf(mem')[..p] && BitsOf(mem)[e..] == BitsOf(mem')[e..]
    ensures Same(mem, mem', e, base)
  {
    hide BitsOf;
    forall i | 0 <= i < |mem| && (e <= 8 * i || i < base) ensures mem[i] == mem'[i] {
      var b, b' := BitsOf(mem), BitsOf(mem');
      if i < base {
        assert b[8 * i..8 * i + 8] == b[..p][8 * i..8 * i + 8] == b'[..p][8 * i..8 * i + 8];
      } else {
        assert b[8 * i..8 * i + 8] == b[e..][8 * i - e..8 * i + 8 - e] == b'[e..][8 * i - e..8 * i + 8 - e];
      }
      BitFields.ByteAt(mem, i);
      BitFields.ByteAt(mem', i);
      assert Pow2(8) == 256;
      assert NatBits(mem[i], 8) == NatBits(mem'[i], 8);
      NatOfNatBits(mem[i], 8);
      NatOfNatBits(mem'[i], 8);
    }
  }

  lemma {:induction false} DenoteFrame(mem: seq<byte>, mem': seq<byte>, t: Ty, c: CVal, p: nat, base: nat)
    requires InMemory(|mem|, t, c) && Same(mem, mem', p, base) && Clear(|mem|, t, c, p, base)
    ensures Denote(mem', t, c) == Denote(mem, t, c)
    decreases t, 1
  {
    match t
    case TList(k) =>
      SliceFrame(mem, mem', k, c, p, base);
    case TBlob =>
      SliceFrame(mem, mem', U8, c, p, base);
    case TStruct(ms) =>
      DenoteAllFrame(mem, mem', ms, c.fields, Align(p), base);
    case _ =>
  }

  lemma SliceFrame(mem: seq<byte>, mem': seq<byte>, k: Num, c: CVal, p: nat, base: nat)
    requires SliceInMemory(|mem|, k, c) && Same(mem, mem', p, base) && SliceClear(k, c, p, base)
    ensures SliceBytes(mem', k, c) == SliceBytes(mem, k, c)
  {
    hide Span;
  }

  lemma {:induction false} DenoteAllFrame(mem: seq<byte>, mem': seq<byte>, ts: seq<Ty>, cs: seq<CVal>, p: nat,
                                          base: nat)
    requires InMemoryAll(|mem|, ts, cs) && Same(mem, mem', p, base) && ClearAll(|mem|, ts, cs, p, base)
    ensures DenoteAll(mem', ts, cs) == DenoteAll(mem, ts, cs)
    decreases ts, 0
  {
    if ts != [] {
      DenoteFrame(mem, mem', ts[0], cs[0], p, base);
      DenoteAllFrame(mem, mem', ts[1..], cs[1..], After(|mem|, ts[0], cs[0], p), base);
    }
  }

  /** What is stored is the value from before the call when no slice is overwritten before its turn. */
  lemma {:induction false} TurnIsDenote(mem: seq<byte>, t: Ty, c: CVal, p: nat, base: nat)
    requires InMemory(|mem|, t, c) && After(|mem|, t, c, p) <= 8 * |mem|
    requires 8 * base <= p && Clear(|mem|, t, c, p, base)
    ensures Turn(mem, t, c, p) == Denote(mem, t, c)
    decreases t, 1
  {
    hide Contents, Span, Block;
    match t
    case TStruct(ms) => TurnAllIsDenote(mem, ms, c.fields, Align(p), base);
    case _ =>
  }

  lemma {:induction false} TurnAllIsDenote(mem: seq<byte>, ts: seq<Ty>, cs: seq<CVal>, p: nat, base: nat)
    requires InMemoryAll(|mem|, ts, cs) && AfterAll(|mem|, ts, cs, p) <= 8 * |mem|
    requires 8 * base <= p && ClearAll(|mem|, ts, cs, p, base)
    ensures TurnAll(mem, ts, cs, p) == DenoteAll(mem, ts, cs)
    decreases ts, 0
  {
    hide Written, Turn, Denote, Clear, After;
    if ts != [] {
      var v, e := Turn(mem, ts[0], cs[0], p), After(|mem|, ts[0], cs[0], p);
      TurnIsDenote(mem, ts[0], cs[0], p, base);
      WrittenFrame(mem, ts[0], cs[0], p, base);
      var mem' := Written(mem, ts[0], v, p);
      DenoteAllFrame(mem, mem', ts[1..], cs[1..], e, base);
      TurnAllIsDenote(mem', ts[1..], cs[1..], e, base);
    }
  }

  lemma WrittenFrame(mem: seq<byte>, t: Ty, c: CVal, p: nat, base: nat)
    requires InMemory(|mem|, t, c) && After(|mem|, t, c, p) <= 8 * |mem| && 8 * base <= p
    ensures Same(mem, Written(mem, t, Turn(mem, t, c, p), p), After(|mem|, t, c, p), base)
  {
    hide BitsOf, Put, End, Tokens, Leaves, Turn, After, BytesOf;
    TurnAfter(mem, t, c, p);
    EmitFrame(EMITTED_C, BitsOf(mem), t, Turn(mem, t, c, p), p);
    SameBits(mem, Written(mem, t, Turn(mem, t, c, p), p), p, After(|mem|, t, c, p), base);
  }

  // ---------------------------------------------------------------- Running a store helper

  /** The result of a struct's members with the final alignment. */
  function Closed(r: Option<(seq<bool>, nat)>): Option<(seq<bool>, nat)> {
    if r.None? then None else Some((r.value.0, Align(r.value.1)))
  }

  /** Storing the remaining members `ms` from bit `p` on will give `target`. */
  ghost predicate Pending(mem: seq<byte>, ms: seq<Ty>, cs: seq<CVal>, vs: seq<Val>, p: nat,
                          target: Option<(seq<bool>, nat)>)
  {
    && InMemoryAll(|mem|, ms, cs) && AfterAll(|mem|, ms, cs, p) <= 8 * |mem| && TurnAll(mem, ms, cs, p) == vs
    && target == Closed(EmitAll(EMITTED_C, BitsOf(mem), ms, vs, p))
  }

  lemma EmitFrame(d: Dialect, b: seq<bool>, t: Ty, v: Val, p: nat)
    requires Writer(d) && EmitOne(d, b, t, v, p).Some?
    ensures var (b', e) := EmitOne(d, b, t, v, p).value; b'[..p] == b[..p] && b'[e..] == b[e..]
  {
    PutFrame(d, b, Tokens(t), Leaves(t, v), p);
  }

  /** Storing one member. */
  lemma PendingStep(mem: seq<byte>, mem': seq<byte>, ms: seq<Ty>, cs: seq<CVal>, vs: seq<Val>, p: nat, p': nat,
                    target: Option<(seq<bool>, nat)>)
    requires Pending(mem, ms, cs, vs, p, target) && ms != [] && |mem'| == |mem|
    requires EmitOne(EMITTED_C, BitsOf(mem), ms[0], vs[0], p) == Some((BitsOf(mem'), p'))
    ensures Pending(mem', ms[1..], cs[1..], vs[1..], p', target)
  {
    hide BitsOf, Put, End, Tokens, Leaves, After, Turn, BytesOf, EmitAll;
    TurnAfter(mem, ms[0], cs[0], p);
    BytesOfBits(mem');
    assert Written(mem, ms[0], vs[0], p) == mem';
    EmitCons(EMITTED_C, BitsOf(mem), ms, vs, p);
  }

  lemma AlignTwice(p: nat)
    ensures Align(Align(p)) == Align(p)
  {
  }

  /** A number, list or struct is stored alike from `p` and from the next byte boundary. */
  lemma FirstAligned(b: seq<bool>, ts: seq<Token>, ls: seq<Leaf>, p: nat)
    requires ts != [] && !ts[0].Bits? && !ts[0].Close? && Typed(ts, ls)
    ensures End(EMITTED_C, ts, ls, Align(p)) == End(EMITTED_C, ts, ls, p)
    ensures End(EMITTED_C, ts, ls, p) <= |b| ==>
              Put(EMITTED_C, b, ts, ls, Align(p)) == Put(EMITTED_C, b, ts, ls, p)
  {
    hide Align, Splice, Image;
    AlignTwice(p);
    var f := Image(ts, ls);
    assert Next(EMITTED_C, ts[0], Align(p), |f|) == Next(EMITTED_C, ts[0], p, |f|);
    if End(EMITTED_C, ts, ls, p) <= |b| {
      ImageFits(EMITTED_C, ts, ls, p);
      if ts[0].Open? {
        OpenWritesNothing(b, ts, ls, p);
      }
    }
  }

  lemma OpenWritesNothing(b: seq<bool>, ts: seq<Token>, ls: seq<Leaf>, p: nat)
    requires ts != [] && ts[0].Open? && Typed(ts, ls) && Align(p) <= |b|
    ensures Image(ts, ls) == []
    ensures Splice(b, p, []) == b == Splice(b, Align(p), [])
  {
  }

  lemma FirstToken(ts: seq<Ty>)
    requires ts != [] && !ts[0].TBit?
    ensures TokensAll(ts) != [] && !TokensAll(ts)[0].Bits? && !TokensAll(ts)[0].Close?
  {
    var tk := Tokens(ts[0]);
    assert tk != [] && !tk[0].Bits? && !tk[0].Close?;
  }

  lemma AfterAligned(size: nat, t: Ty, c: CVal, p: nat)
    requires InMemory(size, t, c) && !t.TBit?
    ensures After(size, t, c, Align(p)) == After(size, t, c, p)
  {
    hide Span, Align;
    AlignTwice(p);
  }

  lemma OneAligned(b: seq<bool>, t: Ty, v: Val, p: nat)
    requires !t.TBit?
    ensures EmitOne(EMITTED_C, b, t, v, Align(p)) == EmitOne(EMITTED_C, b, t, v, p)
  {
    hide Put, End, Leaves, Typed;
    if Conforms(t, v) {
      var tk := Tokens(t);
      assert tk != [] && !tk[0].Bits? && !tk[0].Close?;
      FirstAligned(b, tk, Leaves(t, v), p);
    }
  }

  lemma TurnAligned(mem: seq<byte>, t: Ty, c: CVal, p: nat)
    requires InMemory(|mem|, t, c) && !t.TBit? && After(|mem|, t, c, p) <= 8 * |mem|
    ensures After(|mem|, t, c, Align(p)) <= 8 * |mem|
    ensures Turn(mem, t, c, Align(p)) == Turn(mem, t, c, p)
  {
    hide Span, Align, Moved, Contents;
    AfterAligned(|mem|, t, c, p);
    AlignTwice(p);
  }

  lemma TurnAllAligned(mem: seq<byte>, ts: seq<Ty>, cs: seq<CVal>, p: nat)
    requires InMemoryAll(|mem|, ts, cs) && ts != [] && !ts[0].TBit? && AfterAll(|mem|, ts, cs, p) <= 8 * |mem|
    ensures AfterAll(|mem|, ts, cs, Align(p)) == AfterAll(|mem|, ts, cs, p)
    ensures TurnAll(mem, ts, cs, Align(p)) == TurnAll(mem, ts, cs, p)
  {
    hide BitsOf, EmitOne, Align, Turn, After;
    AfterAligned(|mem|, ts[0], cs[0], p);
    TurnAligned(mem, ts[0], cs[0], p);
    OneAligned(BitsOf(mem), ts[0], Turn(mem, ts[0], cs[0], p), p);
  }

  lemma EmitAligned(b: seq<bool>, ts: seq<Ty>, vs: seq<Val>, p: nat)
    requires ts != [] && !ts[0].TBit?
    ensures EmitAll(EMITTED_C, b, ts, vs, Align(p)) == EmitAll(EMITTED_C, b, ts, vs, p)
  {
    hide Put, End, Tokens, Leaves, Typed;
    FirstToken(ts);
    if ConformAll(ts, vs) {
      FirstAligned(b, TokensAll(ts), LeavesAll(ts, vs), p);
    }
  }

  /** Moving the pointer over a finished bit run. */
  lemma PendingAlign(mem: seq<byte>, ms: seq<Ty>, cs: seq<CVal>, vs: seq<Val>, p: nat,
                     target: Option<(seq<bool>, nat)>)
    requires Pending(mem, ms, cs, vs, p, target) && (ms == [] || !ms[0].TBit?)
    ensures Pending(mem, ms, cs, vs, Align(p), target)
  {
    hide BitsOf, EmitAll, Closed, TurnAll, AfterAll;
    if ms == [] {
      NothingPending(mem, p);
    } else {
      TurnAllAligned(mem, ms, cs, p);
      EmitAligned(BitsOf(mem), ms, vs, p);
    }
  }

  lemma NothingPending(mem: seq<byte>, p: nat)
    requires AfterAll(|mem|, [], [], p) <= 8 * |mem|
    ensures InMemoryAll(|mem|, [], []) && AfterAll(|mem|, [], [], Align(p)) <= 8 * |mem|
    ensures TurnAll(mem, [], [], Align(p)) == TurnAll(mem, [], [], p) == []
    ensures Closed(EmitAll(EMITTED_C, BitsOf(mem), [], [], Align(p))) ==
            Closed(EmitAll(EMITTED_C, BitsOf(mem), [], [], p))
  {
    hide BitsOf;
  }

  method StoreNumber(mem: array<byte>, dest: nat, k: Num, x: int) returns (dest': nat)
    requires InRange(k, x) && dest + Width(k) <= mem.Length
    modifies mem
    ensures old(EmitOne(EMITTED_C, BitsOf(mem[..]), TNum(k), VNum(x), 8 * dest)) == Some((BitsOf(mem[..]), 8 * dest'))
  {
    hide BitsOf, EmitOne, Splice, NatBits, InRange, Pattern, BigEndian, Stored;
    EmitNumber(EMITTED_C, BitsOf(mem[..]), k, x, 8 * dest);
    dest' := StoreNat(mem, dest, Pattern(k, x), Width(k));
  }

  method StoreSlice(mem: array<byte>, dest: nat, t: Ty, c: CVal) returns (dest': nat)
    requires (t.TList? || t.TBlob?) && InMemory(mem.Length, t, c) && After(mem.Length, t, c, 8 * dest) <= 8 * mem.Length
    modifies mem
    ensures old(EmitOne(EMITTED_C, BitsOf(mem[..]), t, Turn(mem[..], t, c, 8 * dest), 8 * dest)) ==
            Some((BitsOf(mem[..]), 8 * dest'))
  {
    hide BitsOf, Span, EmitOne, Splice, NatBits, Turn, Moved;
    EmitSlice(mem[..], t, c, 8 * dest);
    dest' := SliceStore(mem, dest, Element(t), c.ptr, c.len);
  }

  /** A store call for a member that is not a bit field. */
  method StoreMember(mem: array<byte>, dest: nat, t: Ty, c: CVal) returns (dest': nat)
    requires !t.TBit? && InMemory(mem.Length, t, c) && After(mem.Length, t, c, 8 * dest) <= 8 * mem.Length
    modifies mem
    ensures old(EmitOne(EMITTED_C, BitsOf(mem[..]), t, Turn(mem[..], t, c, 8 * dest), 8 * dest)) ==
            Some((BitsOf(mem[..]), 8 * dest'))
    decreases t, 1
  {
    hide BitsOf, Span, EmitOne, Splice, NatBits, InRange, Pattern, Moved, Contents, TurnAll;
    match t {
      case TNum(k) =>
        dest' := StoreNumber(mem, dest, k, c.x);
      case TList(_) =>
        dest' := StoreSlice(mem, dest, t, c);
      case TBlob =>
        dest' := StoreSlice(mem, dest, t, c);
      case TStruct(ms) =>
        dest' := StoreStruct(mem, dest, ms, c.fields);
    }
  }

  /** A bit field store instruction. */
  method StoreField(mem: array<byte>, dest: nat, offset: nat, n: nat, c: CVal, ghost ms: seq<Ty>, ghost cs: seq<CVal>,
                    ghost vs: seq<Val>, ghost target: Option<(seq<bool>, nat)>)
    requires Pending(mem[..], ms, cs, vs, 8 * dest + offset, target)
    requires ms != [] && ms[0] == TBit(n) && cs != [] && cs[0] == c
    modifies mem
    ensures |vs| == |ms| == |cs|
    ensures Pending(mem[..], ms[1..], cs[1..], vs[1..], 8 * dest + (offset + n), target)
  {
    hide BitsOf, EmitOne, Splice, NatBits, Pending, After, Turn, InMemory;
    ghost var was := mem[..];
    NextPending(was, ms, cs, vs, 8 * dest + offset, target);
    BitsStore(mem, dest, c.x, offset, n);
    PendingStep(was, mem[..], ms, cs, vs, 8 * dest + offset, 8 * dest + (offset + n), target);
  }

  /** A store instruction for any other member. */
  method StoreCall(mem: array<byte>, dest: nat, t: Ty, c: CVal, ghost ms: seq<Ty>, ghost cs: seq<CVal>,
                   ghost vs: seq<Val>, ghost target: Option<(seq<bool>, nat)>) returns (dest': nat)
    requires Pending(mem[..], ms, cs, vs, 8 * dest, target)
    requires !t.TBit? && ms != [] && ms[0] == t && cs != [] && cs[0] == c
    modifies mem
    ensures |vs| == |ms| == |cs|
    ensures Pending(mem[..], ms[1..], cs[1..], vs[1..], 8 * dest', target)
    decreases t, 2
  {
    hide BitsOf, EmitOne, Splice, NatBits, Pending, After, Turn, InMemory;
    ghost var was := mem[..];
    NextPending(was, ms, cs, vs, 8 * dest, target);
    dest' := StoreMember(mem, dest, t, c);
    PendingStep(was, mem[..], ms, cs, vs, 8 * dest, 8 * dest', target);
  }

  /**
    `T_store`: defining the helper and running it. The struct is written in the
    emitted dialect, with each slice as it is when its turn comes; `TurnIsDenote`
    says when that is the value the struct had before the call.
   */
  method StoreStruct(mem: array<byte>, dest: nat, ms: seq<Ty>, fields: seq<CVal>) returns (dest': nat)
    requires InMemoryAll(mem.Length, ms, fields)
    requires Align(AfterAll(mem.Length, ms, fields, 8 * dest)) <= 8 * mem.Length
    modifies mem
    ensures old(EmitOne(EMITTED_C, BitsOf(mem[..]), TStruct(ms), VStruct(TurnAll(mem[..], ms, fields, 8 * dest)),
                        8 * dest)) ==
            Some((BitsOf(mem[..]), 8 * dest'))
    decreases ms, 0
  {
    hide BitsOf, EmitOne, EmitAll, Splice, NatBits, Pending, TurnAll, HelperFrom, After, Align, Turn, InMemory,
         AfterAll, InMemoryAll;
    var code := DefineHelper(ms);
    RoomForMembers(mem.Length, ms, fields, dest);
    ghost var vs := TurnAll(mem[..], ms, fields, 8 * dest);
    ghost var target := EmitOne(EMITTED_C, BitsOf(mem[..]), TStruct(ms), VStruct(vs), 8 * dest);
    StartPending(mem[..], ms, fields, dest);
    ghost var i: nat, offset: nat := 0, 0;
    assert ms[0..] == ms && fields[0..] == fields && vs[0..] == vs;
    dest' := dest;
    var pc := 0;
    assert code[0..] == code;
    while pc < |code|
      invariant 0 <= pc <= |code| && i <= |ms| == |fields| == |vs|
      invariant code[pc..] == HelperFrom(ms, i, offset)
      invariant Pending(mem[..], ms[i..], fields[i..], vs[i..], 8 * dest' + offset, target)
    {
      assert code[pc..][1..] == code[pc + 1..];
      CodeHead(ms, i, offset);
      match code[pc] {
        case FieldCall(m, o, n) =>
          StoreField(mem, dest', o, n, fields[m], ms[m..], fields[m..], vs[m..], target);
          i, offset := i + 1, offset + n;
        case Call(m) =>
          dest' := StoreCall(mem, dest', ms[m], fields[m], ms[m..], fields[m..], vs[m..], target);
          i := i + 1;
        case Bump(n) =>
          PendingAlign(mem[..], ms[i..], fields[i..], vs[i..], 8 * dest' + offset, target);
          BumpIsAlign(dest', offset);
          dest' := dest' + n;
          offset := 0;
      }
      pc := pc + 1;
    }
    CodeHead(ms, i, offset);
    EndPending(mem[..], ms[i..], fields[i..], vs[i..], 8 * dest' + offset, target);
  }

  lemma RoomForMembers(size: nat, ms: seq<Ty>, fields: seq<CVal>, dest: nat)
    requires InMemoryAll(size, ms, fields) && Align(AfterAll(size, ms, fields, 8 * dest)) <= 8 * size
    ensures AfterAll(size, ms, fields, 8 * dest) <= 8 * size
  {
  }

  lemma BumpIsAlign(dest: nat, offset: nat)
    ensures 8 * (dest + Align(offset) / 8) == Align(8 * dest + offset)
  {
    AlignAdd(offset, 8 * dest);
  }

  lemma StartPending(mem: seq<byte>, ms: seq<Ty>, fields: seq<CVal>, dest: nat)
    requires InMemoryAll(|mem|, ms, fields) && AfterAll(|mem|, ms, fields, 8 * dest) <= 8 * |mem|
    ensures Pending(mem, ms, fields, TurnAll(mem, ms, fields, 8 * dest), 8 * dest,
                    EmitOne(EMITTED_C, BitsOf(mem), TStruct(ms), VStruct(TurnAll(mem, ms, fields, 8 * dest)), 8 * dest))
    ensures |ms| == |fields|
  {
    hide BitsOf, EmitAll, EmitOne, TurnAll, AfterAll;
    EmitStruct(EMITTED_C, BitsOf(mem), ms, TurnAll(mem, ms, fields, 8 * dest), 8 * dest);
  }

  /** What the next member needs. */
  lemma NextPending(mem: seq<byte>, ms: seq<Ty>, cs: seq<CVal>, vs: seq<Val>, p: nat, target: Option<(seq<bool>, nat)>)
    requires Pending(mem, ms, cs, vs, p, target)
    ensures |ms| == |cs| == |vs|
    ensures ms != [] ==>
              && InMemory(|mem|, ms[0], cs[0]) && After(|mem|, ms[0], cs[0], p) <= 8 * |mem|
              && vs[0] == Turn(mem, ms[0], cs[0], p)
    ensures ms != [] && ms[0].TBit? ==>
              && cs[0].CNum? && cs[0].x >= 0 && p + ms[0].n <= 8 * |mem|
              && EmitOne(EMITTED_C, BitsOf(mem), ms[0], vs[0], p) ==
                 Some((Splice(BitsOf(mem), p, NatBits(cs[0].x, ms[0].n)), p + ms[0].n))
  {
    hide BitsOf, EmitAll, EmitOne;
    if ms != [] {
      assert InMemory(|mem|, ms[0], cs[0]);
      if ms[0].TBit? {
        EmitSmall(BitsOf(mem), ms[0], cs[0].x, p);
      }
    }
  }

  lemma EndPending(mem: seq<byte>, ms: seq<Ty>, cs: seq<CVal>, vs: seq<Val>, p: nat, target: Option<(seq<bool>, nat)>)
    requires Pending(mem, ms, cs, vs, p, target) && ms == [] && p % 8 == 0
    ensures target == Some((BitsOf(mem), p))
  {
    hide BitsOf;
  }

  // ---------------------------------------------------------------- Running a load helper

  lemma BlockElements(mem: seq<byte>, w: width, ptr: nat, n: nat)
    requires ptr + n <= |mem|
    ensures Elements(mem, w, ptr, ptr + n) == ReadItems(w, BitsOf(Block(mem, ptr, n)))
  {
    hide BitsOf, ReadItems;
    assert Block(mem, ptr, n) == mem[ptr..ptr + n];
  }

  /** The slice that a load makes stands for the list that is read. */
  lemma LoadedSlice(mem: seq<byte>, t: Ty, src: nat)
    requires t.TList? || t.TBlob?
    requires Read(EMITTED_C, BitsOf(mem), t, 8 * src).Some?
    ensures src + 2 <= |mem|
    ensures var len := FromBigEndian(mem[src..src + 2]);
            var c := CSlice(src + 2, len / Width(Element(t)));
            && InMemory(|mem|, t, c)
            && Read(EMITTED_C, BitsOf(mem), t, 8 * src) == Some((Denote(mem, t, c), 8 * (src + 2 + len)))
  {
    hide BitsOf, FromBigEndian, ReadLeaf, ReadItems, Value, WholeBytes, Whole, Span, Contents, InRange, Pow2, Pattern,
         Block, Elements, WholePart, Read, Tokens, Patterns;
    ReadSequence(EMITTED_C, BitsOf(mem), t, 8 * src);
    var k, tok := Element(t), Tokens(t)[0];
    ReadLeafBytes(EMITTED_C, mem, tok, 8 * src);
    var len := FromBigEndian(mem[src..src + 2]);
    PrefixBytes(mem[src..src + 2]);
    SpanOfCount(k, len);
    var whole := WholeBytes(len, Width(k));
    BlockElements(mem, Width(k), src + 2, whole);
    ReadLeafFits(EMITTED_C, BitsOf(mem), tok, 8 * src);
    ListIsItsPatterns(k, Contents(Block(mem, src + 2, whole), k),
                      ReadLeaf(EMITTED_C, BitsOf(mem), tok, 8 * src).value.0.items);
  }

  /** `compost_slice_*_load`: the slice points into the message, nothing is copied. */
  method SliceLoad(mem: array<byte>, src: nat, t: Ty) returns (c: CVal, src': nat)
    requires t.TList? || t.TBlob?
    requires Read(EMITTED_C, BitsOf(mem[..]), t, 8 * src).Some?
    ensures InMemory(mem.Length, t, c)
    ensures Read(EMITTED_C, BitsOf(mem[..]), t, 8 * src) == Some((Denote(mem[..], t, c), 8 * src'))
  {
    hide BitsOf, FromBigEndian, Read, Denote, InMemory;
    LoadedSlice(mem[..], t, src);
    var len;
    len, src' := LoadNat(mem, src, 2);
    assert mem[..][src..src + 2] == mem[src..src + 2];
    c := CSlice(src', len / Width(Element(t)));
    src' := src' + len;
  }

  lemma SpanOfCount(k: Num, len: nat)
    requires len < 65536
    ensures Span(k, len / Width(k)) == WholeBytes(len, Width(k)) <= len
  {
  }

  lemma PrefixBytes(bytes: seq<byte>)
    requires |bytes| == 2
    ensures FromBigEndian(bytes) < 65536
  {
    PrefixBelow(BitsOf(bytes));
  }

  /** Reading the rest of a struct's members will give `target`. */
  function Rounded(r: Option<(seq<Val>, nat)>): Option<(Val, nat)> {
    if r.None? then None else Some((VStruct(r.value.0), Align(r.value.1)))
  }

  /** The members loaded so far stand for `vs`. */
  ghost predicate Loaded(mem: seq<byte>, ms: seq<Ty>, cs: seq<CVal>, vs: seq<Val>) {
    |cs| == |vs| <= |ms| &&
    forall j :: 0 <= j < |cs| ==> InMemory(|mem|, ms[j], cs[j]) && Denote(mem, ms[j], cs[j]) == vs[j]
  }

  lemma LoadedNone(mem: seq<byte>, ms: seq<Ty>)
    ensures Loaded(mem, ms, [], [])
  {
  }

  lemma LoadedMore(mem: seq<byte>, ms: seq<Ty>, cs: seq<CVal>, vs: seq<Val>, c: CVal)
    requires Loaded(mem, ms, cs, vs) && |cs| < |ms| && InMemory(|mem|, ms[|cs|], c)
    ensures Loaded(mem, ms, cs + [c], vs + [Denote(mem, ms[|cs|], c)])
  {
    hide Denote, InMemory;
  }

  lemma {:induction false} LoadedAll(mem: seq<byte>, ms: seq<Ty>, cs: seq<CVal>, vs: seq<Val>)
    requires Loaded(mem, ms, cs, vs) && |cs| == |ms|
    ensures InMemoryAll(|mem|, ms, cs) && DenoteAll(mem, ms, cs) == vs
    decreases |ms|
  {
    if ms != [] {
      LoadedAll(mem, ms[1..], cs[1..], vs[1..]);
      assert vs == [vs[0]] + vs[1..];
    }
  }

  /** Reading alike from `u` and from the next byte boundary. */
  lemma ReadAligned(b: seq<bool>, t: Ty, u: nat)
    requires !t.TBit?
    ensures Read(EMITTED_C, b, t, Align(u)) == Read(EMITTED_C, b, t, u)
  {
    hide Align, Read, ReadLeaf, ReadAll, Value, Values, Tokens;
    AlignTwice(u);
    match t
    case TNum(k) => NumAligned(b, k, u);
    case TStruct(ms) =>
      ReadStruct(EMITTED_C, b, ms, u);
      ReadStruct(EMITTED_C, b, ms, Align(u));
    case TList(_) => SequenceAligned(b, t, u);
    case TBlob => SequenceAligned(b, t, u);
  }

  lemma SequenceAligned(b: seq<bool>, t: Ty, u: nat)
    requires t.TList? || t.TBlob?
    ensures Read(EMITTED_C, b, t, Align(u)) == Read(EMITTED_C, b, t, u)
  {
    hide Align, Read, ReadLeaf, Values, Tokens;
    AlignTwice(u);
    ReadSequence(EMITTED_C, b, t, u);
    ReadSequence(EMITTED_C, b, t, Align(u));
    LeafAligned(b, Tokens(t)[0], u);
  }

  lemma NumAligned(b: seq<bool>, k: Num, u: nat)
    ensures Read(EMITTED_C, b, TNum(k), Align(u)) == Read(EMITTED_C, b, TNum(k), u)
  {
    hide Align, ReadLeaf, Value;
    AlignTwice(u);
    LeafAligned(b, Prim(Width(k)), u);
  }

  lemma LeafAligned(b: seq<bool>, t: Token, u: nat)
    requires t.Prim? || t.List?
    ensures ReadLeaf(EMITTED_C, b, t, Align(u)) == ReadLeaf(EMITTED_C, b, t, u)
  {
    hide Align, NatOf, ReadItems, WholePart;
    AlignTwice(u);
  }

  lemma RestAligned(b: seq<bool>, ts: seq<Ty>, vs: seq<Val>, u: nat)
    requires ts == [] || !ts[0].TBit?
    ensures Rounded(Continued(vs, ReadAll(EMITTED_C, b, ts, Align(u)))) ==
            Rounded(Continued(vs, ReadAll(EMITTED_C, b, ts, u)))
  {
    hide Read;
    AlignTwice(u);
    if ts != [] {
      ReadAligned(b, ts[0], u);
    }
  }

  /** A load call for a member that is not a bit field. */
  method LoadMember(mem: array<byte>, src: nat, t: Ty) returns (c: CVal, src': nat)
    requires !t.TBit? && Read(EMITTED_C, BitsOf(mem[..]), t, 8 * src).Some?
    ensures InMemory(mem.Length, t, c)
    ensures Read(EMITTED_C, BitsOf(mem[..]), t, 8 * src) == Some((Denote(mem[..], t, c), 8 * src'))
    decreases t, 1
  {
    hide BitsOf, FromBigEndian, Read, Value, SliceInMemory, Width;
    match t {
      case TNum(k) =>
        NumFromBytes(mem[..], k, src);
        var n;
        n, src' := LoadNat(mem, src, Width(k));
        assert mem[..][src..src + Width(k)] == mem[src..src + Width(k)];
        c := CNum(Value(k, n));
      case TList(_) =>
        c, src' := SliceLoad(mem, src, t);
      case TBlob =>
        c, src' := SliceLoad(mem, src, t);
      case TStruct(ms) =>
        var fields;
        fields, src' := LoadStruct(mem, src, ms);
        c := CStruct(fields);
    }
  }

  lemma NumFromBytes(mem: seq<byte>, k: Num, src: nat)
    requires Read(EMITTED_C, BitsOf(mem), TNum(k), 8 * src).Some?
    ensures src + Width(k) <= |mem|
    ensures var x := Value(k, FromBigEndian(mem[src..src + Width(k)]));
            InRange(k, x) && Read(EMITTED_C, BitsOf(mem), TNum(k), 8 * src) == Some((VNum(x), 8 * (src + Width(k))))
  {
    hide BitsOf, FromBigEndian, Read, Align, Width, Value, Pow2;
    WholeBytesAligned(src);
    ReadNumBytes(EMITTED_C, mem, k, 8 * src);
  }

  lemma WholeBytesAligned(n: nat)
    ensures Align(8 * n) == 8 * n && Align(8 * n) / 8 == n
  {
  }

  /** `T_load`: defining the helper and running it. */
  method LoadStruct(mem: array<byte>, src: nat, ms: seq<Ty>) returns (fields: seq<CVal>, src': nat)
    requires Read(EMITTED_C, BitsOf(mem[..]), TStruct(ms), 8 * src).Some?
    ensures InMemoryAll(mem.Length, ms, fields)
    ensures Read(EMITTED_C, BitsOf(mem[..]), TStruct(ms), 8 * src) ==
            Some((VStruct(DenoteAll(mem[..], ms, fields)), 8 * src'))
    decreases ms, 0
  {
    hide BitsOf, Read, Denote, InMemory, HelperFrom, Align, Rounded, Continued, ReadAll, Loaded, NatOf, DenoteAll,
         InMemoryAll, Pow2;
    var code := DefineHelper(ms);
    ghost var b := BitsOf(mem[..]);
    ghost var target := Read(EMITTED_C, b, TStruct(ms), 8 * src);
    ghost var vs: seq<Val> := [];
    ghost var i: nat, offset: nat := 0, 0;
    StartReading(b, ms, src);
    assert ms[0..] == ms && code[0..] == code;
    fields := [];
    LoadedNone(mem[..], ms);
    src' := src;
    var pc := 0;
    while pc < |code|
      invariant 0 <= pc <= |code| && i == |fields| <= |ms|
      invariant code[pc..] == HelperFrom(ms, i, offset)
      invariant Loaded(mem[..], ms, fields, vs)
      invariant target == Rounded(Continued(vs, ReadAll(EMITTED_C, b, ms[i..], 8 * src' + offset)))
    {
      assert code[pc..][1..] == code[pc + 1..];
      CodeHead(ms, i, offset);
      match code[pc] {
        case FieldCall(m, o, n) =>
          NextRead(mem[..], ms[m..], vs, 8 * src' + o);
          assert ms[m..][1..] == ms[m + 1..];
          var x := BitsLoad(mem, src', o, n);
          LoadedBits(mem[..], n, x, 8 * src' + o);
          LoadedMore(mem[..], ms, fields, vs, CNum(x));
          fields, vs := fields + [CNum(x)], vs + [VNum(x)];
          i, offset := i + 1, offset + n;
        case Call(m) =>
          NextRead(mem[..], ms[m..], vs, 8 * src');
          assert ms[m..][1..] == ms[m + 1..];
          var c;
          c, src' := LoadMember(mem, src', ms[m]);
          LoadedMore(mem[..], ms, fields, vs, c);
          fields, vs := fields + [c], vs + [Denote(mem[..], ms[m], c)];
          i := i + 1;
        case Bump(n) =>
          RestAligned(b, ms[i..], vs, 8 * src' + offset);
          BumpIsAlign(src', offset);
          src' := src' + n;
          offset := 0;
      }
      pc := pc + 1;
    }
    CodeHead(ms, i, offset);
    EndReading(b, vs, 8 * src');
    assert ms[|ms|..] == [];
    LoadedAll(mem[..], ms, fields, vs);
  }

  lemma LoadedBits(mem: seq<byte>, n: nat, x: int, u: nat)
    requires Read(EMITTED_C, BitsOf(mem), TBit(n), u).Some?
    requires Read(EMITTED_C, BitsOf(mem), TBit(n), u).value.0 == VNum(x)
    ensures InMemory(|mem|, TBit(n), CNum(x)) && Denote(mem, TBit(n), CNum(x)) == VNum(x)
  {
    hide BitsOf;
    ReadIsGet(EMITTED_C, BitsOf(mem), TBit(n), u);
  }

  lemma StartReading(b: seq<bool>, ms: seq<Ty>, src: nat)
    ensures Read(EMITTED_C, b, TStruct(ms), 8 * src) ==
            Rounded(Continued([], ReadAll(EMITTED_C, b, ms, 8 * src)))
  {
    hide ReadAll, ReadList, ReadLeaf, Value;
    var r := ReadAll(EMITTED_C, b, ms, 8 * src);
    if r.Some? {
      assert [] + r.value.0 == r.value.0;
    }
  }

  lemma EndReading(b: seq<bool>, vs: seq<Val>, u: nat)
    requires u % 8 == 0
    ensures Rounded(Continued(vs, ReadAll(EMITTED_C, b, [], u))) == Some((VStruct(vs), u))
  {
    assert vs + [] == vs;
  }

  /** The next member can be read, and what remains after it. */
  lemma NextRead(mem: seq<byte>, ts: seq<Ty>, vs: seq<Val>, u: nat)
    requires ts != [] && Rounded(Continued(vs, ReadAll(EMITTED_C, BitsOf(mem), ts, u))).Some?
    ensures Read(EMITTED_C, BitsOf(mem), ts[0], u).Some?
    ensures var (v, e) := Read(EMITTED_C, BitsOf(mem), ts[0], u).value;
            Rounded(Continued(vs, ReadAll(EMITTED_C, BitsOf(mem), ts, u))) ==
            Rounded(Continued(vs + [v], ReadAll(EMITTED_C, BitsOf(mem), ts[1..], e)))
    ensures ts[0].TBit? ==>
              var n := ts[0].n;
              && (n > 0 ==> u + n <= 8 * |mem|)
              && Read(EMITTED_C, BitsOf(mem), ts[0], u) ==
                 Some((VNum(if n == 0 then 0 else NatOf(BitsOf(mem)[u..u + n])), u + n))
  {
    hide BitsOf, NatOf;
    ContinuedRound(EMITTED_C, BitsOf(mem), ts, u, vs);
  }

  /** The load calls of an invoke function, one for each parameter. */
  method LoadArguments(mem: array<byte>, src: nat, ts: seq<Ty>) returns (args: seq<CVal>, src': nat)
    requires forall i :: 0 <= i < |ts| ==> !ts[i].TBit?
    requires ReadAll(EMITTED_C, BitsOf(mem[..]), ts, 8 * src).Some?
    ensures InMemoryAll(mem.Length, ts, args)
    ensures ReadAll(EMITTED_C, BitsOf(mem[..]), ts, 8 * src) == Some((DenoteAll(mem[..], ts, args), 8 * src'))
  {
    hide BitsOf, Read, Denote, InMemory, Loaded;
    ghost var b := BitsOf(mem[..]);
    ghost var target := ReadAll(EMITTED_C, b, ts, 8 * src);
    ghost var vs: seq<Val> := [];
    args := [];
    src' := src;
    LoadedNone(mem[..], ts);
    assert ts[0..] == ts && vs + target.value.0 == target.value.0;
    for i := 0 to |ts|
      invariant i == |args| && Loaded(mem[..], ts, args, vs)
      invariant target == Continued(vs, ReadAll(EMITTED_C, b, ts[i..], 8 * src'))
    {
      assert ts[i..][1..] == ts[i + 1..];
      ContinuedRound(EMITTED_C, b, ts[i..], 8 * src', vs);
      var c;
      c, src' := LoadMember(mem, src', ts[i]);
      LoadedMore(mem[..], ts, args, vs, c);
      args, vs := args + [c], vs + [Denote(mem[..], ts[i], c)];
    }
    assert vs + [] == vs;
    LoadedAll(mem[..], ts, args, vs);
  }
}
