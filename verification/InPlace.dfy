/**
  Where `T_store` puts list data, and what that means for slices that already
  lie in the message: which stay as they are, and when a store from slices that
  were allocated in the same buffer gives the value they held.
 */
module InPlace {
  import opened BitOps
  import opened BitString
  import opened BitFields
  import opened Results
  import opened Wire
  import opened Types
  import opened Interop
  import opened ByteLevel
  import opened CRuntime
  import opened CHelpers
  import opened Layout
  import opened ZeroCopy

  // ---------------------------------------------------------------- The data of every list

  /** The elements of each list, as they stand on the wire. */
  function ListBits(ts: seq<Token>, ls: seq<Leaf>): (r: seq<seq<bool>>)
    requires Typed(ts, ls)
    ensures |r| == Lists(ts)
  {
    if ts == [] then []
    else
      var r := ListBits(ts[1..], Rest(ts[0], ls));
      if ts[0].List? then [Items(ts[0].w, ls[0].items)] + r else r
  }

  /** Their lengths in bytes. */
  function InWholeBytes(r: seq<seq<bool>>): (ns: seq<nat>)
    ensures |ns| == |r|
    ensures forall i :: 0 <= i < |r| ==> ns[i] == |r[i]| / 8
  {
    seq(|r|, i requires 0 <= i < |r| => |r[i]| / 8)
  }

  lemma InWholeBytesTail(f: seq<bool>, r: seq<seq<bool>>)
    ensures InWholeBytes([f] + r)[0] == |f| / 8 && InWholeBytes([f] + r)[1..] == InWholeBytes(r)
  {
  }

  /** In a message, the bits from the i-th data position on are the elements of the i-th list. */
  lemma {:induction false} DataAt(b: seq<bool>, ts: seq<Token>, ls: seq<Leaf>, p: nat, i: nat)
    requires Typed(ts, ls) && End(EMITTED_C, ts, ls, p) <= |b| && i < Lists(ts)
    ensures var f := ListBits(ts, ls)[i];
            var d := DataStarts(ts, InWholeBytes(ListBits(ts, ls)), p)[i];
            d + |f| <= |b| && Put(EMITTED_C, b, ts, ls, p)[d..d + |f|] == f
    decreases |ts|
  {
    hide Splice, Start, Align, Items, DataStarts, InWholeBytes, Next, Image, Put, End, Typed, Rest, Onward;
    PutStep(b, ts, ls, p);
    var t, im := ts[0], Image(ts, ls);
    var q, rest := Next(EMITTED_C, t, p, |im|), ListBits(ts[1..], Rest(t, ls));
    StartsStep(ts, InWholeBytes(ListBits(ts, ls)), p);
    if t.List? {
      ListToken(ts, ls, p);
      InWholeBytesTail(Items(t.w, ls[0].items), rest);
      if i == 0 {
        ImageIntact(EMITTED_C, b, ts, ls, p);
        ItemsInImage(Put(EMITTED_C, b, ts, ls, p), Align(p), im, Items(t.w, ls[0].items));
      } else {
        DataAt(Splice(b, Start(t, p), im), ts[1..], Rest(t, ls), q, i - 1);
      }
    } else {
      OtherToken(ts, ls, p);
      DataAt(Splice(b, Start(t, p), im), ts[1..], Rest(t, ls), q, i);
    }
  }

  lemma PutStep(b: seq<bool>, ts: seq<Token>, ls: seq<Leaf>, p: nat)
    requires ts != [] && Typed(ts, ls) && End(EMITTED_C, ts, ls, p) <= |b|
    ensures Typed(ts[1..], Rest(ts[0], ls)) && (ts[0].List? ==> ls != [] && ls[0].Arr?)
    ensures Start(ts[0], p) + |Image(ts, ls)| <= |b|
    ensures var q := Next(EMITTED_C, ts[0], p, |Image(ts, ls)|);
            && End(EMITTED_C, ts[1..], Rest(ts[0], ls), q) <= |b|
            && Put(EMITTED_C, b, ts, ls, p) ==
               Put(EMITTED_C, Splice(b, Start(ts[0], p), Image(ts, ls)), ts[1..], Rest(ts[0], ls), q)
  {
    hide Splice, Start, Next, Image;
    ImageFits(EMITTED_C, ts, ls, p);
  }

  lemma ItemsInImage(out: seq<bool>, s: nat, im: seq<bool>, items: seq<bool>)
    requires s + |im| <= |out| && out[s..s + |im|] == im && |im| == 16 + |items| && im[16..] == items
    ensures out[s + 16..s + 16 + |items|] == items
  {
    assert out[s + 16..s + 16 + |items|] == out[s..s + |im|][16..];
  }

  lemma ListToken(ts: seq<Token>, ls: seq<Leaf>, p: nat)
    requires ts != [] && ts[0].List? && Typed(ts, ls)
    ensures var im, it := Image(ts, ls), Items(ts[0].w, ls[0].items);
            && Start(ts[0], p) == Align(p) && |im| == 16 + |it| && im[16..] == it
            && Next(EMITTED_C, ts[0], p, |im|) == Align(p) + 16 + 8 * (|it| / 8)
  {
    hide Items, NatBits, Align;
  }

  lemma OtherToken(ts: seq<Token>, ls: seq<Leaf>, p: nat)
    requires ts != [] && !ts[0].List? && Typed(ts, ls)
    ensures Next(EMITTED_C, ts[0], p, |Image(ts, ls)|) == Onward(ts[0], p)
  {
    hide NatBits, Align;
  }

  lemma {:induction false} ListBitsAppend(ts: seq<Token>, us: seq<Token>, ls: seq<Leaf>, ms: seq<Leaf>)
    requires Typed(ts, ls) && Typed(us, ms)
    ensures Typed(ts + us, ls + ms)
    ensures ListBits(ts + us, ls + ms) == ListBits(ts, ls) + ListBits(us, ms)
    decreases |ts|
  {
    hide Items, Image, Typed, Rest, ListBits;
    if ts == [] {
      assert ts + us == us && ls + ms == ms by {
        NoLeaves(ls);
      }
      NoListBits();
    } else {
      HeadOfAppend(ts, us, ls, ms);
      ListBitsStep(ts, ls);
      ListBitsStep(ts + us, ls + ms);
      ListBitsAppend(ts[1..], us, Rest(ts[0], ls), ms);
    }
  }

  lemma NoLeaves(ls: seq<Leaf>)
    requires Typed([], ls)
    ensures ls == []
  {
  }

  lemma NoListBits()
    ensures Typed([], []) && ListBits([], []) == []
  {
  }

  lemma ListBitsStep(ts: seq<Token>, ls: seq<Leaf>)
    requires ts != [] && Typed(ts, ls)
    ensures Typed(ts[1..], Rest(ts[0], ls)) && (ts[0].List? ==> ls != [] && ls[0].Arr?)
    ensures ListBits(ts, ls) ==
            (if ts[0].List? then [Items(ts[0].w, ls[0].items)] else []) + ListBits(ts[1..], Rest(ts[0], ls))
  {
    hide Items;
    var r := ListBits(ts[1..], Rest(ts[0], ls));
    assert [] + r == r;
  }

  /** Slices of these lengths lie in a memory of `size` bytes. */
  predicate Within(size: nat, ss: seq<CVal>, ns: seq<nat>) {
    |ss| == |ns| && forall i :: 0 <= i < |ss| ==> ss[i].CSlice? && (ns[i] > 0 ==> ss[i].ptr + ns[i] <= size)
  }

  function BlockBits(mem: seq<byte>, ss: seq<CVal>, ns: seq<nat>): (r: seq<seq<bool>>)
    requires Within(|mem|, ss, ns)
    ensures |r| == |ss|
    ensures forall i :: 0 <= i < |ss| ==> r[i] == BitsOf(Block(mem, ss[i].ptr, ns[i]))
  {
    seq(|ss|, i requires 0 <= i < |ss| => BitsOf(Block(mem, ss[i].ptr, ns[i])))
  }

  lemma WithinAppend(mem: seq<byte>, s: seq<CVal>, n: seq<nat>, s': seq<CVal>, n': seq<nat>)
    requires Within(|mem|, s, n) && Within(|mem|, s', n')
    ensures Within(|mem|, s + s', n + n')
    ensures BlockBits(mem, s + s', n + n') == BlockBits(mem, s, n) + BlockBits(mem, s', n')
  {
    hide BitsOf;
  }

  /** The elements of the lists of a C value are the bytes of its slices. */
  lemma {:induction false} SliceData(mem: seq<byte>, t: Ty, c: CVal)
    requires InMemory(|mem|, t, c)
    ensures Conforms(t, Denote(mem, t, c)) && Within(|mem|, Slices(t, c), Lengths(t, c))
    ensures ListBits(Tokens(t), Leaves(t, Denote(mem, t, c))) == BlockBits(mem, Slices(t, c), Lengths(t, c))
    decreases t, 1
  {
    hide BitsOf, Contents, Items, Patterns, Span, Pattern, InRange, NatBits;
    EmitAfter(mem, t, c, 0);
    match t
    case TNum(k) => assert Tokens(t)[1..] == [];
    case TBit(n) => assert Tokens(t)[1..] == [];
    case TList(_) => OneSliceData(mem, t, c);
    case TBlob => OneSliceData(mem, t, c);
    case TStruct(ms) =>
      SliceDataAll(mem, ms, c.fields);
      StructListBits(ms, DenoteAll(mem, ms, c.fields));
  }

  lemma StructListBits(ms: seq<Ty>, vs: seq<Val>)
    requires ConformAll(ms, vs)
    ensures ListBits(Tokens(TStruct(ms)), Leaves(TStruct(ms), VStruct(vs))) ==
            ListBits(TokensAll(ms), LeavesAll(ms, vs))
  {
    hide TokensAll, LeavesAll;
    var ls := LeavesAll(ms, vs);
    assert [Open][1..] == [] && [Close][1..] == [];
    ListBitsAppend([Open], TokensAll(ms), [], ls);
    ListBitsAppend([Open] + TokensAll(ms), [Close], [] + ls, []);
    assert [] + ls + [] == ls;
    assert ListBits([Open], []) == [] && ListBits([Close], []) == [];
  }

  lemma OneSliceData(mem: seq<byte>, t: Ty, c: CVal)
    requires (t.TList? || t.TBlob?) && InMemory(|mem|, t, c) && Conforms(t, Denote(mem, t, c))
    ensures Within(|mem|, Slices(t, c), Lengths(t, c))
    ensures ListBits(Tokens(t), Leaves(t, Denote(mem, t, c))) == BlockBits(mem, Slices(t, c), Lengths(t, c))
  {
    hide BitsOf, Contents, Items, Patterns, Span, ReadItems, InRange;
    var k := Element(t);
    var bytes := Block(mem, c.ptr, Span(k, c.len));
    SpanWhole(k, c.len);
    ItemsOfReadItems(Width(k), BitsOf(bytes), |bytes|);
    assert Tokens(t)[1..] == [];
    assert Leaves(t, Denote(mem, t, c))[1..] == [];
  }

  lemma {:induction false} SliceDataAll(mem: seq<byte>, ts: seq<Ty>, cs: seq<CVal>)
    requires InMemoryAll(|mem|, ts, cs)
    ensures ConformAll(ts, DenoteAll(mem, ts, cs)) && Within(|mem|, SlicesAll(ts, cs), LengthsAll(ts, cs))
    ensures ListBits(TokensAll(ts), LeavesAll(ts, DenoteAll(mem, ts, cs))) ==
            BlockBits(mem, SlicesAll(ts, cs), LengthsAll(ts, cs))
    decreases ts, 0
  {
    hide BitsOf, Denote, Tokens, Leaves, Slices, Lengths, Conforms;
    EmitAfterAll(mem, ts, cs, 0);
    if ts != [] {
      var vs := DenoteAll(mem, ts, cs);
      assert vs[1..] == DenoteAll(mem, ts[1..], cs[1..]);
      SliceData(mem, ts[0], cs[0]);
      SliceDataAll(mem, ts[1..], cs[1..]);
      ListBitsAppend(Tokens(ts[0]), TokensAll(ts[1..]), Leaves(ts[0], vs[0]), LeavesAll(ts[1..], vs[1..]));
      WithinAppend(mem, Slices(ts[0], cs[0]), Lengths(ts[0], cs[0]),
                   SlicesAll(ts[1..], cs[1..]), LengthsAll(ts[1..], cs[1..]));
    }
  }

  // ---------------------------------------------------------------- Slices after a store

  /** What `T_store` leaves in memory. */
  ghost function AfterStore(mem: seq<byte>, ms: seq<Ty>, fields: seq<CVal>, q: nat): Option<(seq<bool>, nat)>
    requires InMemoryAll(|mem|, ms, fields) && AfterAll(|mem|, ms, fields, 8 * q) <= 8 * |mem|
  {
    EmitOne(EMITTED_C, BitsOf(mem), TStruct(ms), VStruct(TurnAll(mem, ms, fields, 8 * q)), 8 * q)
  }

  /**
    After a store of slices that are not overwritten early, the bytes of the i-th
    slice stand at the i-th data position.
   */
  lemma StoredAtDataStart(mem: seq<byte>, mem': seq<byte>, ms: seq<Ty>, fields: seq<CVal>, q: nat, e: nat, base: nat,
                          i: nat)
    requires InMemoryAll(|mem|, ms, fields) && AfterAll(|mem|, ms, fields, 8 * q) <= 8 * |mem|
    requires base <= q && ClearAll(|mem|, ms, fields, 8 * q, base)
    requires |mem'| == |mem| && AfterStore(mem, ms, fields, q) == Some((BitsOf(mem'), e))
    requires |SlicesAll(ms, fields)| == |LengthsAll(ms, fields)| == Lists(TokensAll(ms)) && i < Lists(TokensAll(ms))
    ensures Within(|mem|, SlicesAll(ms, fields), LengthsAll(ms, fields))
    ensures var n := LengthsAll(ms, fields)[i];
            var d := DataStarts(TokensAll(ms), LengthsAll(ms, fields), 8 * q)[i];
            && d % 8 == 0 && d / 8 + n <= |mem'|
            && mem'[d / 8..d / 8 + n] == Block(mem, SlicesAll(ms, fields)[i].ptr, n)
  {
    hide BitsOf, TurnAll, DenoteAll, TokensAll, SlicesAll, LengthsAll, ConformAll, Put, DataStarts, Lists, BlockBits,
         ListBits, InMemoryAll, AfterAll, ClearAll, InWholeBytes, Block, AfterStore;
    var vs, ss, ns := DenoteAll(mem, ms, fields), SlicesAll(ms, fields), LengthsAll(ms, fields);
    SliceDataAll(mem, ms, fields);
    StoredBitsAre(mem, mem', ms, fields, q, e, base);
    var ts, ls := TokensAll(ms), LeavesAll(ms, vs);
    DataAt(BitsOf(mem), ts, ls, 8 * q, i);
    SameLengths(mem, ss, ns, ListBits(ts, ls));
    WholeStarts(ts, ns, 8 * q, i);
    ReadBytes(mem', DataStarts(ts, ns, 8 * q)[i], Block(mem, ss[i].ptr, ns[i]));
  }

  /** After such a store, memory is the encoding of the value that the struct had. */
  lemma StoredBitsAre(mem: seq<byte>, mem': seq<byte>, ms: seq<Ty>, fields: seq<CVal>, q: nat, e: nat, base: nat)
    requires InMemoryAll(|mem|, ms, fields) && AfterAll(|mem|, ms, fields, 8 * q) <= 8 * |mem|
    requires base <= q && ClearAll(|mem|, ms, fields, 8 * q, base)
    requires |mem'| == |mem| && AfterStore(mem, ms, fields, q) == Some((BitsOf(mem'), e))
    requires ConformAll(ms, DenoteAll(mem, ms, fields))
    ensures var ts, ls := TokensAll(ms), LeavesAll(ms, DenoteAll(mem, ms, fields));
            && Typed(ts, ls) && End(EMITTED_C, ts, ls, 8 * q) <= 8 * |mem|
            && BitsOf(mem') == Put(EMITTED_C, BitsOf(mem), ts, ls, 8 * q)
  {
    hide BitsOf, TurnAll, DenoteAll, TokensAll, LeavesAll, ConformAll, Put, InMemoryAll, AfterAll, ClearAll, End;
    TurnAllIsDenote(mem, ms, fields, 8 * q, base);
    EmitStruct(EMITTED_C, BitsOf(mem), ms, DenoteAll(mem, ms, fields), 8 * q);
  }

  lemma SameLengths(mem: seq<byte>, ss: seq<CVal>, ns: seq<nat>, r: seq<seq<bool>>)
    requires Within(|mem|, ss, ns) && r == BlockBits(mem, ss, ns)
    ensures InWholeBytes(r) == ns
  {
    hide BitsOf, Block;
    assert forall i :: 0 <= i < |r| ==> |r[i]| == 8 * ns[i];
  }

  lemma ReadBytes(mem: seq<byte>, d: nat, bytes: seq<byte>)
    requires d % 8 == 0 && d + 8 * |bytes| <= 8 * |mem| && BitsOf(mem)[d..d + 8 * |bytes|] == BitsOf(bytes)
    ensures mem[d / 8..d / 8 + |bytes|] == bytes
  {
    hide BitsOf;
    BitsOfSlice(mem, d / 8, d / 8 + |bytes|);
    BitsOfInjective(mem[d / 8..d / 8 + |bytes|], bytes);
  }

  lemma {:induction false} WholeStarts(ts: seq<Token>, ns: seq<nat>, p: nat, i: nat)
    requires |ns| == Lists(ts) && i < |ns|
    ensures DataStarts(ts, ns, p)[i] % 8 == 0
    decreases |ts|
  {
    hide DataStarts, Align, Onward;
    StartsStep(ts, ns, p);
    if !ts[0].List? {
      WholeStarts(ts[1..], ns, Onward(ts[0], p), i);
    } else if i > 0 {
      WholeStarts(ts[1..], ns[1..], Align(p) + 16 + 8 * ns[0], i - 1);
    }
  }

  /**
    Zero copy: for a tight type whose slices were allocated in the message that is
    stored, `T_store` stores the value they held and leaves the bytes of every
    slice as they are.
   */
  lemma ZeroCopyStore(mem: seq<byte>, mem': seq<byte>, ms: seq<Ty>, fields: seq<CVal>, q: nat, e: nat)
    requires InMemoryAll(|mem|, ms, fields) && AfterAll(|mem|, ms, fields, 8 * q) <= 8 * |mem|
    requires Tight(TokensAll(ms)) && Allocated(ms, fields, q)
    requires |mem'| == |mem| && AfterStore(mem, ms, fields, q) == Some((BitsOf(mem'), e))
    ensures TurnAll(mem, ms, fields, 8 * q) == DenoteAll(mem, ms, fields)
    ensures Within(|mem|, SlicesAll(ms, fields), LengthsAll(ms, fields))
    ensures forall i :: 0 <= i < |SlicesAll(ms, fields)| ==>
              Block(mem', SlicesAll(ms, fields)[i].ptr, LengthsAll(ms, fields)[i]) ==
              Block(mem, SlicesAll(ms, fields)[i].ptr, LengthsAll(ms, fields)[i])
  {
    hide BitsOf, TurnAll, DenoteAll, TokensAll, SlicesAll, LengthsAll, DataStarts, Lists, InMemoryAll, AfterAll,
         ClearAll, AfterStore, Tight, Spread, InBytes, LayoutFrom, Allocated, Missing, Block;
    TightMissesNothing(ms);
    InPlaceStoreIsClear(|mem|, ms, fields, q, 0, q);
    TurnAllIsDenote(mem, ms, fields, 8 * q, q);
    TreeIsFlatAll(|mem|, ms, fields, 8 * q, q);
    SliceDataAll(mem, ms, fields);
    var ss, ns := SlicesAll(ms, fields), LengthsAll(ms, fields);
    forall i | 0 <= i < |ss| ensures Block(mem', ss[i].ptr, ns[i]) == Block(mem, ss[i].ptr, ns[i]) {
      SliceKept(mem, mem', ms, fields, q, e, i);
    }
  }

  lemma SliceKept(mem: seq<byte>, mem': seq<byte>, ms: seq<Ty>, fields: seq<CVal>, q: nat, e: nat, i: nat)
    requires InMemoryAll(|mem|, ms, fields) && AfterAll(|mem|, ms, fields, 8 * q) <= 8 * |mem|
    requires Tight(TokensAll(ms)) && Allocated(ms, fields, q) && ClearAll(|mem|, ms, fields, 8 * q, q)
    requires |mem'| == |mem| && AfterStore(mem, ms, fields, q) == Some((BitsOf(mem'), e))
    requires Within(|mem|, SlicesAll(ms, fields), LengthsAll(ms, fields))
    requires |SlicesAll(ms, fields)| == Lists(TokensAll(ms)) && i < Lists(TokensAll(ms))
    ensures Block(mem', SlicesAll(ms, fields)[i].ptr, LengthsAll(ms, fields)[i]) ==
            Block(mem, SlicesAll(ms, fields)[i].ptr, LengthsAll(ms, fields)[i])
  {
    hide BitsOf, TokensAll, SlicesAll, LengthsAll, DataStarts, Lists, InMemoryAll, AfterAll, ClearAll, AfterStore,
         Tight, Allocated, Block;
    StoredAtDataStart(mem, mem', ms, fields, q, e, q, i);
    TightSlice(ms, fields, q, i);
    BlockAt(mem', SlicesAll(ms, fields)[i].ptr, LengthsAll(ms, fields)[i]);
  }

  lemma TightSlice(ms: seq<Ty>, fields: seq<CVal>, q: nat, i: nat)
    requires Tight(TokensAll(ms)) && Allocated(ms, fields, q)
    requires |SlicesAll(ms, fields)| == |LengthsAll(ms, fields)| == Lists(TokensAll(ms)) && i < Lists(TokensAll(ms))
    ensures SlicesAll(ms, fields)[i].CSlice?
    ensures 8 * SlicesAll(ms, fields)[i].ptr == DataStarts(TokensAll(ms), LengthsAll(ms, fields), 8 * q)[i]
  {
    hide TokensAll, SlicesAll, LengthsAll, DataStarts, Lists, Tight, Spread, InBytes, LayoutFrom;
    LayoutEntries(ms);
    TightIsExact(ms, LengthsAll(ms, fields), q);
  }

  lemma BlockAt(mem: seq<byte>, ptr: nat, n: nat)
    requires ptr + n <= |mem|
    ensures Block(mem, ptr, n) == mem[ptr..ptr + n]
  {
  }

  // ---------------------------------------------------------------- Whole-byte runs are tight

  lemma LayoutHeadExact(ts: seq<Token>, cur: nat)
    requires ts != [] && !ts[0].List? && (ts[0].Bits? || cur % 8 == 0)
    ensures TokenLayout(ts)[0] + cur == TokenLayout(ts[1..])[0] + Onward(ts[0], cur)
  {
  }

  /** Where bit runs are whole bytes, the encoder uses exactly what the layout says. */
  lemma {:induction false} NoGapGrows(ts: seq<Token>, cur: nat, i: nat)
    requires WholeByteRuns(ts, cur % 8) && i < Lists(ts)
    requires |EncodedLayout(ts, cur)| == |TokenLayout(ts)| == Lists(ts) + 1
    ensures EncodedLayout(ts, cur)[i] == TokenLayout(ts)[i] + (if i == 0 then cur else 0)
    decreases |ts|
  {
    hide Align, EncodedLayout, TokenLayout, Onward;
    LayoutHead(ts, cur);
    if ts[0].List? {
      AlignedStays(cur);
      EncodedCount(ts[1..], 0);
      if i > 0 {
        NoGapGrows(ts[1..], 0, i - 1);
      }
    } else {
      LayoutHeadExact(ts, cur);
      EncodedCount(ts[1..], Onward(ts[0], cur));
      OnwardPhase(ts[0], cur);
      NoGapGrows(ts[1..], Onward(ts[0], cur), i);
      if i > 0 {
        var r, l := TokenLayout(ts[1..]), TokenLayout(ts);
        assert l[i] == l[1..][i - 1] == r[1..][i - 1] == r[i];
      }
    }
  }

  lemma AlignedStays(cur: nat)
    requires cur % 8 == 0
    ensures Align(cur) == cur
  {
  }

  lemma OnwardPhase(t: Token, cur: nat)
    requires !t.List? && (t.Bits? || cur % 8 == 0)
    ensures Onward(t, cur) % 8 == if t.Bits? then (cur % 8 + t.n) % 8 else 0
  {
    if t.Prim? {
      AddWhole(Align(cur), 8 * t.w);
    }
  }

  lemma WholeByteRunsAreTight(ts: seq<Token>)
    requires WholeByteRuns(ts, 0)
    ensures Tight(ts)
  {
    hide EncodedLayout, TokenLayout, Lists;
    EncodedCount(ts, 0);
    forall i | 0 <= i < Lists(ts) ensures EncodedLayout(ts, 0)[i] < TokenLayout(ts)[i] + 8 {
      NoGapGrows(ts, 0, i);
    }
  }
}
