/**
  Replies whose lists were allocated in the reply itself: `T_alloc_init`, `T_init`
  and `T_store` as generated invoke functions join them.
 */
module Replies {
  import opened BitOps
  import opened BitString
  import opened BitFields
  import opened Results
  import opened Wire
  import opened Types
  import opened Interop
  import opened ByteLevel
  import opened CRuntime
  import opened CHelpers
  import opened Layout
  import opened Allocator
  import opened ZeroCopy
  import opened InPlace
  import opened Overlap

  // ---------------------------------------------------------------- Placing slices

  /** `compost_slice_*_new`: a refused block leaves a slice without elements. */
  function Slice(block: Option<nat>, len: nat): CVal {
    if block.None? then CSlice(0, 0) else CSlice(block.value, len)
  }

  /** `T_init`: `c` with its slices in the given blocks, in declaration order. */
  function Place(t: Ty, c: CVal, blocks: seq<Option<nat>>): CVal
    requires |blocks| == Lists(Tokens(t))
    decreases t, 1
  {
    OneListAtMost(t);
    match t
    case TList(_) => if c.CSlice? then Slice(blocks[0], c.len) else c
    case TBlob => if c.CSlice? then Slice(blocks[0], c.len) else c
    case TStruct(ms) =>
      if c.CStruct? && |c.fields| == |ms| then CStruct(PlaceAll(ms, c.fields, blocks)) else c
    case _ => c
  }

  function PlaceAll(ts: seq<Ty>, cs: seq<CVal>, blocks: seq<Option<nat>>): (r: seq<CVal>)
    requires |blocks| == Lists(TokensAll(ts)) && |cs| == |ts|
    ensures |r| == |cs|
    decreases ts, 0
  {
    if ts == [] then []
    else
      ListsAppend(Tokens(ts[0]), TokensAll(ts[1..]));
      var n := Lists(Tokens(ts[0]));
      [Place(ts[0], cs[0], blocks[..n])] + PlaceAll(ts[1..], cs[1..], blocks[n..])
  }

  /** The lengths that are left when refused blocks stay empty. */
  function Kept(ns: seq<nat>, blocks: seq<Option<nat>>): (r: seq<nat>)
    requires |ns| == |blocks|
    ensures |r| == |ns|
    ensures forall i :: 0 <= i < |ns| ==> r[i] == if blocks[i].None? then 0 else ns[i]
  {
    seq(|ns|, i requires 0 <= i < |ns| => if blocks[i].None? then 0 else ns[i])
  }

  /** A C value of its type, wherever its slices point. */
  predicate Proper(t: Ty, c: CVal)
    decreases t, 1
  {
    match t
    case TNum(k) => c.CNum? && InRange(k, c.x)
    case TBit(n) => c.CNum? && 0 <= c.x < Pow2(n)
    case TList(k) => c.CSlice? && c.len < 65536
    case TBlob => c.CSlice? && c.len < 65536
    case TStruct(ms) => c.CStruct? && ProperAll(ms, c.fields)
  }

  predicate ProperAll(ts: seq<Ty>, cs: seq<CVal>)
    decreases ts, 0
  {
    |ts| == |cs| && (ts != [] ==> Proper(ts[0], cs[0]) && ProperAll(ts[1..], cs[1..]))
  }

  ghost predicate At(ss: seq<CVal>, blocks: seq<Option<nat>>) {
    && |ss| == |blocks|
    && forall j :: 0 <= j < |ss| ==> ss[j].CSlice? && (blocks[j].Some? ==> ss[j].ptr == blocks[j].value)
  }

  lemma AtAppend(s: seq<CVal>, s': seq<CVal>, blocks: seq<Option<nat>>, n: nat)
    requires n <= |blocks| && At(s, blocks[..n]) && At(s', blocks[n..])
    ensures At(s + s', blocks)
  {
    forall j | 0 <= j < |s + s'|
      ensures (s + s')[j].CSlice? && (blocks[j].Some? ==> (s + s')[j].ptr == blocks[j].value)
    {
      if j < n {
        assert (s + s')[j] == s[j] && blocks[..n][j] == blocks[j];
      } else {
        assert (s + s')[j] == s'[j - n] && blocks[n..][j - n] == blocks[j];
      }
    }
  }

  /** Blocks of these lengths lie in a memory of `size` bytes. */
  predicate RoomAt(size: nat, blocks: seq<Option<nat>>, ns: seq<nat>) {
    |blocks| == |ns| && forall j :: 0 <= j < |ns| && blocks[j].Some? ==> blocks[j].value + ns[j] <= size
  }

  lemma RoomSplit(size: nat, blocks: seq<Option<nat>>, a: seq<nat>, b: seq<nat>)
    requires RoomAt(size, blocks, a + b)
    ensures RoomAt(size, blocks[..|a|], a) && RoomAt(size, blocks[|a|..], b)
  {
    forall j | 0 <= j < |a| && blocks[..|a|][j].Some? ensures blocks[..|a|][j].value + a[j] <= size {
      assert (a + b)[j] == a[j];
    }
    forall j | 0 <= j < |b| && blocks[|a|..][j].Some? ensures blocks[|a|..][j].value + b[j] <= size {
      assert (a + b)[|a| + j] == b[j];
    }
  }

  lemma KeptAppend(a: seq<nat>, b: seq<nat>, blocks: seq<Option<nat>>)
    requires |blocks| == |a| + |b|
    ensures Kept(a + b, blocks) == Kept(a, blocks[..|a|]) + Kept(b, blocks[|a|..])
  {
  }

  /** Placing keeps the lengths of granted slices, puts them at their blocks, and stays in memory when the blocks do. */
  lemma {:induction false} PlaceLaws(size: nat, t: Ty, c: CVal, blocks: seq<Option<nat>>)
    requires Proper(t, c) && |blocks| == Lists(Tokens(t))
    ensures |Lengths(t, c)| == |blocks| && Lengths(t, Place(t, c, blocks)) == Kept(Lengths(t, c), blocks)
    ensures At(Slices(t, Place(t, c, blocks)), blocks) && Proper(t, Place(t, c, blocks))
    ensures RoomAt(size, blocks, Lengths(t, c)) ==> InMemory(size, t, Place(t, c, blocks))
    decreases t, 1
  {
    hide Pow2, InRange;
    OneListAtMost(t);
    match t
    case TStruct(ms) => PlaceAllLaws(size, ms, c.fields, blocks);
    case _ =>
  }

  lemma {:induction false} PlaceAllLaws(size: nat, ts: seq<Ty>, cs: seq<CVal>, blocks: seq<Option<nat>>)
    requires ProperAll(ts, cs) && |blocks| == Lists(TokensAll(ts))
    ensures |LengthsAll(ts, cs)| == |blocks|
    ensures LengthsAll(ts, PlaceAll(ts, cs, blocks)) == Kept(LengthsAll(ts, cs), blocks)
    ensures At(SlicesAll(ts, PlaceAll(ts, cs, blocks)), blocks) && ProperAll(ts, PlaceAll(ts, cs, blocks))
    ensures RoomAt(size, blocks, LengthsAll(ts, cs)) ==> InMemoryAll(size, ts, PlaceAll(ts, cs, blocks))
    decreases ts, 0
  {
    hide Place, Slices, Lengths, Proper, InMemory, At, RoomAt, Kept;
    if ts == [] {
      NothingPlaced(size);
    } else {
      ListsAppend(Tokens(ts[0]), TokensAll(ts[1..]));
      var n := Lists(Tokens(ts[0]));
      PlaceLaws(size, ts[0], cs[0], blocks[..n]);
      PlaceAllLaws(size, ts[1..], cs[1..], blocks[n..]);
      KeptAppend(Lengths(ts[0], cs[0]), LengthsAll(ts[1..], cs[1..]), blocks);
      AtAppend(Slices(ts[0], Place(ts[0], cs[0], blocks[..n])),
               SlicesAll(ts[1..], PlaceAll(ts[1..], cs[1..], blocks[n..])),
               blocks, n);
      if RoomAt(size, blocks, LengthsAll(ts, cs)) {
        RoomSplit(size, blocks, Lengths(ts[0], cs[0]), LengthsAll(ts[1..], cs[1..]));
      }
    }
  }

  lemma NothingPlaced(size: nat)
    ensures At([], []) && RoomAt(size, [], []) && Kept([], []) == []
  {
  }

  // ---------------------------------------------------------------- What the allocator gives

  lemma LengthsCount(ms: seq<Ty>, template: seq<CVal>)
    requires ProperAll(ms, template)
    ensures |LengthsAll(ms, template)| == Lists(TokensAll(ms))
  {
    PlaceAllLaws(0, ms, template, seq(Lists(TokensAll(ms)), _ => None));
  }

  /** What `T_init` gets for its lists when the allocator starts the static prefix behind byte `at`. */
  function Given(ms: seq<Ty>, template: seq<CVal>, at: nat, len: nat): (blocks: seq<Option<nat>>)
    requires ProperAll(ms, template)
    ensures |blocks| == |LengthsAll(ms, template)| == Lists(TokensAll(ms))
  {
    LengthsCount(ms, template);
    Offers(at, len, ms, LengthsAll(ms, template))
  }

  /** The struct that `T_init` makes: refused lists are empty, and all others stand where the allocator put them. */
  function Init(ms: seq<Ty>, template: seq<CVal>, at: nat, len: nat): seq<CVal>
    requires ProperAll(ms, template)
  {
    PlaceAll(ms, template, Given(ms, template, at, len))
  }

  /** Its blocks lie in memory, and so does what `T_store` writes from byte `q` on. */
  ghost predicate Fitting(size: nat, ms: seq<Ty>, template: seq<CVal>, q: nat, at: nat, len: nat) {
    && ProperAll(ms, template)
    && at + InBytes(LayoutFrom([0], ms))[0] + len <= size
    && Align(Finish(TokensAll(ms), Kept(LengthsAll(ms, template), Given(ms, template, at, len)), 8 * q)) <= 8 * size
  }

  /**
    Every list that was granted and holds something begins behind the place of its
    length: a check on type, lengths and buffer, before anything is stored.
   */
  predicate OutOfTheWay(ms: seq<Ty>, ns: seq<nat>, blocks: seq<Option<nat>>, q: nat)
    requires |ns| == |blocks| == Lists(TokensAll(ms))
  {
    var starts := DataStarts(TokensAll(ms), Kept(ns, blocks), 8 * q);
    forall i :: 0 <= i < |ns| && blocks[i].Some? && ns[i] > 0 ==> starts[i] < 8 * blocks[i].value + 16
  }

  lemma InitInMemory(size: nat, ms: seq<Ty>, template: seq<CVal>, q: nat, at: nat, len: nat)
    requires Fitting(size, ms, template, q, at, len)
    ensures InMemoryAll(size, ms, Init(ms, template, at, len))
    ensures LengthsAll(ms, Init(ms, template, at, len)) == Kept(LengthsAll(ms, template), Given(ms, template, at, len))
    ensures Align(AfterAll(size, ms, Init(ms, template, at, len), 8 * q)) <= 8 * size
    ensures AfterAll(size, ms, Init(ms, template, at, len), 8 * q) <= 8 * size
  {
    hide InMemoryAll, AfterAll, LengthsAll, SlicesAll, Lists, TokensAll, Finish, Offers, PlaceAll, LayoutFrom, InBytes,
         Align, ProperAll, DataStarts, RoomAt;
    var ns, blocks := LengthsAll(ms, template), Given(ms, template, at, len);
    GivenRoom(size, ms, template, at, len);
    PlaceAllLaws(size, ms, template, blocks);
    var fields := Init(ms, template, at, len);
    TreeIsFlatAll(size, ms, fields, 8 * q, q);
    RoomForMembers(size, ms, fields, q);
  }

  lemma GivenRoom(size: nat, ms: seq<Ty>, template: seq<CVal>, at: nat, len: nat)
    requires ProperAll(ms, template) && at + InBytes(LayoutFrom([0], ms))[0] + len <= size
    ensures RoomAt(size, Given(ms, template, at, len), LengthsAll(ms, template))
  {
    hide LengthsAll, Lists, TokensAll, LayoutFrom, InBytes, ProperAll, Grants;
    LayoutEntries(ms);
    var ns, l := LengthsAll(ms, template), InBytes(LayoutFrom([0], ms));
    forall j | 0 <= j < |ns| && Given(ms, template, at, len)[j].Some?
      ensures Given(ms, template, at, len)[j].value + ns[j] <= size
    {
      GrantsApart(at + l[0], l[1..], ns, at + l[0] + len, j, j);
    }
  }

  lemma GivenApart(ms: seq<Ty>, template: seq<CVal>, q: nat, at: nat, len: nat)
    requires ProperAll(ms, template) && q <= at
    ensures Apart(SlicesAll(ms, Init(ms, template, at, len)), LengthsAll(ms, Init(ms, template, at, len)), q)
    ensures At(SlicesAll(ms, Init(ms, template, at, len)), Given(ms, template, at, len))
    ensures LengthsAll(ms, Init(ms, template, at, len)) == Kept(LengthsAll(ms, template), Given(ms, template, at, len))
  {
    hide LengthsAll, SlicesAll, Lists, TokensAll, LayoutFrom, InBytes, ProperAll, Grants, PlaceAll;
    LayoutEntries(ms);
    var ns, l, blocks := LengthsAll(ms, template), InBytes(LayoutFrom([0], ms)), Given(ms, template, at, len);
    PlaceAllLaws(0, ms, template, blocks);
    forall j | 0 <= j < |ns| && blocks[j].Some? ensures q <= blocks[j].value {
      GrantsApart(at + l[0], l[1..], ns, at + l[0] + len, j, j);
    }
    forall i, j | 0 <= i < j < |ns| && blocks[i].Some? && blocks[j].Some?
      ensures blocks[i].value + ns[i] <= blocks[j].value
    {
      GrantsApart(at + l[0], l[1..], ns, at + l[0] + len, i, j);
    }
  }

  /**
    Whatever was refused: storing the struct that `T_init` made gives the value it
    holds, for all contents, if and only if no granted list is in the way.
   */
  lemma OfferedStoreIff(size: nat, ms: seq<Ty>, template: seq<CVal>, q: nat, at: nat, len: nat)
    requires Fitting(size, ms, template, q, at, len) && q <= at
    ensures InMemoryAll(size, ms, Init(ms, template, at, len))
    ensures AfterAll(size, ms, Init(ms, template, at, len), 8 * q) <= 8 * size
    ensures StoredAsHeld(size, ms, Init(ms, template, at, len), q) <==>
            OutOfTheWay(ms, LengthsAll(ms, template), Given(ms, template, at, len), q)
  {
    hide InMemoryAll, AfterAll, LengthsAll, SlicesAll, Lists, TokensAll, Init, Given, Fitting, ProperAll, DataStarts,
         Apart, StoredAsHeld;
    ProperTemplate(size, ms, template, q, at, len);
    InitInMemory(size, ms, template, q, at, len);
    GivenApart(ms, template, q, at, len);
    StoredAsHeldIff(size, ms, Init(ms, template, at, len), q);
    BehindIsOut(ms, SlicesAll(ms, Init(ms, template, at, len)), LengthsAll(ms, template),
                Given(ms, template, at, len), q);
  }

  lemma ProperTemplate(size: nat, ms: seq<Ty>, template: seq<CVal>, q: nat, at: nat, len: nat)
    requires Fitting(size, ms, template, q, at, len)
    ensures ProperAll(ms, template)
  {
  }

  lemma BehindIsOut(ms: seq<Ty>, ss: seq<CVal>, ns: seq<nat>, blocks: seq<Option<nat>>, q: nat)
    requires |ns| == |blocks| == Lists(TokensAll(ms)) && At(ss, blocks)
    ensures Behind(ss, Kept(ns, blocks), DataStarts(TokensAll(ms), Kept(ns, blocks), 8 * q)) <==>
            OutOfTheWay(ms, ns, blocks, q)
  {
    hide Lists, TokensAll, DataStarts;
  }

  // ---------------------------------------------------------------- The exact condition for types, nothing refused

  /** A struct whose slices were allocated by its layout from `delta` bytes behind byte `q` on. */
  ghost predicate Ready(mem: seq<byte>, ms: seq<Ty>, fields: seq<CVal>, q: nat, delta: nat) {
    && InMemoryAll(|mem|, ms, fields) && Align(AfterAll(|mem|, ms, fields, 8 * q)) <= 8 * |mem|
    && Allocated(ms, fields, q + delta)
  }

  /** `T_store` at byte `q` gives the encoding of the value from before the call, whatever the value and the memory. */
  ghost predicate StoresFaithfully(ms: seq<Ty>, q: nat, delta: nat) {
    forall mem, fields :: Ready(mem, ms, fields, q, delta) ==>
      (RoomForMembers(|mem|, ms, fields, q);
       AfterStore(mem, ms, fields, q) ==
       EmitOne(EMITTED_C, BitsOf(mem), TStruct(ms), VStruct(DenoteAll(mem, ms, fields)), 8 * q))
  }

  /**
    A check on the type alone: what the layout is short of, over all lists, is
    less than the distance `delta` and the two bytes of a length together.
   */
  predicate Spacious(ms: seq<Ty>, delta: nat) {
    Missing(ms) < delta + 2
  }

  /** Equal encodings are encodings of equal values. */
  lemma SameEncoding(b: seq<bool>, t: Ty, v: Val, v': Val, p: nat)
    requires EmitOne(EMITTED_C, b, t, v, p).Some?
    requires EmitOne(EMITTED_C, b, t, v, p) == EmitOne(EMITTED_C, b, t, v', p)
    ensures v == v'
  {
    hide Put, End, Typed, Tokens, Leaves, Conforms, Get, Compatible;
    var tk := Tokens(t);
    var out := Put(EMITTED_C, b, tk, Leaves(t, v), p);
    SelfCompatible(EMITTED_C, tk, p % 8);
    RoundTrip(EMITTED_C, EMITTED_C, b, tk, Leaves(t, v), p, p, out);
    RoundTrip(EMITTED_C, EMITTED_C, b, tk, Leaves(t, v'), p, p, out);
    LeavesInjective(t, v, v');
  }

  lemma MissingIs(ms: seq<Ty>)
    ensures |InBytes(LayoutFrom([0], ms))| == |InBytes(EncodedLayout(TokensAll(ms), 0))| == Lists(TokensAll(ms)) + 1
    ensures Missing(ms) ==
            Shortfall(InBytes(LayoutFrom([0], ms)), InBytes(EncodedLayout(TokensAll(ms), 0)), Lists(TokensAll(ms)))
    ensures Lists(TokensAll(ms)) == 0 ==> Missing(ms) == 0
  {
    hide InBytes, EncodedLayout, TokenLayout, LayoutFrom, Lists;
    EncodedCount(TokensAll(ms), 0);
    LayoutOfTokens(ms);
  }

  /** When nothing is refused, the struct that `T_init` made is ready. */
  lemma GrantedIsReady(mem: seq<byte>, ms: seq<Ty>, template: seq<CVal>, q: nat, delta: nat, len: nat)
    requires Fitting(|mem|, ms, template, q, q + delta, len) && AllGranted(Given(ms, template, q + delta, len))
    ensures Ready(mem, ms, Init(ms, template, q + delta, len), q, delta)
    ensures LengthsAll(ms, Init(ms, template, q + delta, len)) == LengthsAll(ms, template)
  {
    hide InMemoryAll, AfterAll, LengthsAll, SlicesAll, Lists, TokensAll, Grants, PlaceAll, LayoutFrom, InBytes, Align,
         ProperAll, Spread, AllFit, Finish, Apart;
    var ns, blocks := LengthsAll(ms, template), Given(ms, template, q + delta, len);
    InitInMemory(|mem|, ms, template, q, q + delta, len);
    GivenApart(ms, template, q, q + delta, len);
    OffersIff(q + delta, len, ms, ns);
    assert Kept(ns, blocks) == ns;
  }

  /** All numbers zero, the i-th list of one element and all others of nine. */
  function Sized(t: Ty, i: int): (c: CVal)
    ensures Proper(t, c)
    decreases t, 1
  {
    match t
    case TNum(_) => CNum(0)
    case TBit(_) => CNum(0)
    case TList(_) => CSlice(0, if i == 0 then 1 else 9)
    case TBlob => CSlice(0, if i == 0 then 1 else 9)
    case TStruct(ms) => CStruct(SizedAll(ms, i))
  }

  function SizedAll(ts: seq<Ty>, i: int): (cs: seq<CVal>)
    ensures ProperAll(ts, cs)
    decreases ts, 0
  {
    if ts == [] then [] else [Sized(ts[0], i)] + SizedAll(ts[1..], i - Lists(Tokens(ts[0])))
  }

  /** One element takes at most eight bytes, nine take more. */
  predicate OneSmall(ns: seq<nat>, i: int) {
    forall j :: 0 <= j < |ns| ==> if j == i then 1 <= ns[j] <= 8 else 9 <= ns[j]
  }

  lemma {:induction false} SizedLengths(t: Ty, i: int)
    ensures |Lengths(t, Sized(t, i))| == Lists(Tokens(t)) && OneSmall(Lengths(t, Sized(t, i)), i)
    decreases t, 1
  {
    OneListAtMost(t);
    match t
    case TStruct(ms) => SizedLengthsAll(ms, i);
    case _ =>
  }

  lemma {:induction false} SizedLengthsAll(ts: seq<Ty>, i: int)
    ensures |LengthsAll(ts, SizedAll(ts, i))| == Lists(TokensAll(ts)) && OneSmall(LengthsAll(ts, SizedAll(ts, i)), i)
    decreases ts, 0
  {
    hide Lengths, LengthsAll, Sized, SizedAll, OneSmall, Lists, Tokens, TokensAll;
    if ts == [] {
      NoneSmall(i);
    } else {
      var n := Lists(Tokens(ts[0]));
      SizedStep(ts, i);
      ListsAppend(Tokens(ts[0]), TokensAll(ts[1..]));
      SizedLengths(ts[0], i);
      SizedLengthsAll(ts[1..], i - n);
      OneSmallAppend(Lengths(ts[0], Sized(ts[0], i)), LengthsAll(ts[1..], SizedAll(ts[1..], i - n)), i);
    }
  }

  lemma SizedStep(ts: seq<Ty>, i: int)
    requires ts != []
    ensures TokensAll(ts) == Tokens(ts[0]) + TokensAll(ts[1..])
    ensures LengthsAll(ts, SizedAll(ts, i)) ==
            Lengths(ts[0], Sized(ts[0], i)) + LengthsAll(ts[1..], SizedAll(ts[1..], i - Lists(Tokens(ts[0]))))
  {
    hide Lengths, Sized, Lists, Tokens, Proper, ProperAll;
    var rest := SizedAll(ts[1..], i - Lists(Tokens(ts[0])));
    assert SizedAll(ts, i) == [Sized(ts[0], i)] + rest && ([Sized(ts[0], i)] + rest)[1..] == rest;
  }

  lemma NoneSmall(i: int)
    ensures LengthsAll([], SizedAll([], i)) == [] && Lists(TokensAll([])) == 0 && OneSmall([], i)
  {
  }

  lemma OneSmallAppend(a: seq<nat>, b: seq<nat>, i: int)
    requires OneSmall(a, i) && OneSmall(b, i - |a|)
    ensures OneSmall(a + b, i)
  {
  }

  /** Enough memory for the blocks and the encoding. */
  function Enough(ms: seq<Ty>, template: seq<CVal>, q: nat, at: nat, len: nat): nat
    requires ProperAll(ms, template)
  {
    at + InBytes(LayoutFrom([0], ms))[0] + len +
    Align(Finish(TokensAll(ms), Kept(LengthsAll(ms, template), Given(ms, template, at, len)), 8 * q)) / 8
  }

  lemma EnoughFits(ms: seq<Ty>, template: seq<CVal>, q: nat, at: nat, len: nat)
    requires ProperAll(ms, template)
    ensures Fitting(Enough(ms, template, q, at, len), ms, template, q, at, len)
  {
    hide ProperAll, Finish, Given, LengthsAll, InBytes, LayoutFrom, TokensAll;
  }

  /** A memory and a struct on which the store fails. */
  lemma SpoiledReply(ms: seq<Ty>, q: nat, delta: nat) returns (mem: seq<byte>, fields: seq<CVal>)
    requires !Spacious(ms, delta)
    ensures Ready(mem, ms, fields, q, delta) && AfterAll(|mem|, ms, fields, 8 * q) <= 8 * |mem|
    ensures TurnAll(mem, ms, fields, 8 * q) != DenoteAll(mem, ms, fields)
  {
    hide InBytes, LayoutFrom, TokensAll, LengthsAll, SlicesAll, Lists, InMemoryAll, AfterAll, Missing, TurnAll,
         DenoteAll, Ready, SizedAll, Init, Given, Fitting, Enough, OutOfTheWay, AllGranted, Sum;
    MissingIs(ms);
    var i := Lists(TokensAll(ms)) - 1;
    var template := SizedAll(ms, i);
    SizedLengthsAll(ms, i);
    var l, ns := InBytes(LayoutFrom([0], ms)), LengthsAll(ms, template);
    var len := Sum(l[..|ns|]) + Sum(ns);
    AllGivenLast(ms, template, q, delta, len);
    EnoughFits(ms, template, q, q + delta, len);
    var size := Enough(ms, template, q, q + delta, len);
    OfferedStoreIff(size, ms, template, q, q + delta, len);
    fields := Init(ms, template, q + delta, len);
    mem :| |mem| == size && TurnAll(mem, ms, fields, 8 * q) != DenoteAll(mem, ms, fields);
    GrantedIsReady(mem, ms, template, q, delta, len);
  }

  /** With room for all lists, the last one is in the way when the type is not spacious. */
  lemma AllGivenLast(ms: seq<Ty>, template: seq<CVal>, q: nat, delta: nat, len: nat)
    requires !Spacious(ms, delta) && ProperAll(ms, template) && |LengthsAll(ms, template)| == Lists(TokensAll(ms)) > 0
    requires OneSmall(LengthsAll(ms, template), Lists(TokensAll(ms)) - 1)
    requires |InBytes(LayoutFrom([0], ms))| == Lists(TokensAll(ms)) + 1
    requires len == Sum(InBytes(LayoutFrom([0], ms))[..Lists(TokensAll(ms))]) + Sum(LengthsAll(ms, template))
    ensures AllGranted(Given(ms, template, q + delta, len))
    ensures !OutOfTheWay(ms, LengthsAll(ms, template), Given(ms, template, q + delta, len), q)
  {
    hide InBytes, LayoutFrom, TokensAll, LengthsAll, Lists, Missing, EncodedLayout, Shortfall, DataStarts, Spread,
         Grants, Sum, ProperAll, AllFit;
    var ts, ns, i := TokensAll(ms), LengthsAll(ms, template), Lists(TokensAll(ms)) - 1;
    var l, e := InBytes(LayoutFrom([0], ms)), InBytes(EncodedLayout(ts, 0));
    var blocks := Given(ms, template, q + delta, len);
    OffersIff(q + delta, len, ms, ns);
    AllFitIff(q + delta, l, ns, q + delta + l[0] + len);
    assert Kept(ns, blocks) == ns;
    MissingIs(ms);
    SpreadApart(q, q + delta, l, e, ns, i);
    EncodedCount(ts, 0);
    DataStartsSpread(ts, ns, q, 0, i);
    assert 8 * q + 0 == 8 * q;
    assert blocks[i].Some? && ns[i] > 0 && DataStarts(ts, ns, 8 * q)[i] >= 8 * blocks[i].value + 16;
  }

  /**
    In-place replies, exactly: for every struct type and every distance, storing a
    struct whose slices were allocated by its layout that far behind the message
    gives the encoding of the value it had, for all values and memories, if and
    only if the type is spacious.
   */
  lemma StoresFaithfullyIff(ms: seq<Ty>, q: nat, delta: nat)
    ensures StoresFaithfully(ms, q, delta) <==> Spacious(ms, delta)
  {
    hide BitsOf, EmitOne, TurnAll, DenoteAll, InMemoryAll, AfterAll, Missing, Align, Allocated;
    if Spacious(ms, delta) {
      forall mem, fields | Ready(mem, ms, fields, q, delta)
        ensures (RoomForMembers(|mem|, ms, fields, q);
                 AfterStore(mem, ms, fields, q) ==
                 EmitOne(EMITTED_C, BitsOf(mem), TStruct(ms), VStruct(DenoteAll(mem, ms, fields)), 8 * q))
      {
        RoomForMembers(|mem|, ms, fields, q);
        InPlaceStoreIsClear(|mem|, ms, fields, q, delta, q);
        TurnAllIsDenote(mem, ms, fields, 8 * q, q);
      }
    } else {
      var mem, fields := SpoiledReply(ms, q, delta);
      StoreSucceeds(mem, ms, fields, q);
      if AfterStore(mem, ms, fields, q) ==
         EmitOne(EMITTED_C, BitsOf(mem), TStruct(ms), VStruct(DenoteAll(mem, ms, fields)), 8 * q)
      {
        SameEncoding(BitsOf(mem), TStruct(ms), VStruct(TurnAll(mem, ms, fields, 8 * q)),
                     VStruct(DenoteAll(mem, ms, fields)), 8 * q);
      }
    }
  }

  lemma StoreSucceeds(mem: seq<byte>, ms: seq<Ty>, fields: seq<CVal>, q: nat)
    requires InMemoryAll(|mem|, ms, fields) && Align(AfterAll(|mem|, ms, fields, 8 * q)) <= 8 * |mem|
    requires AfterAll(|mem|, ms, fields, 8 * q) <= 8 * |mem|
    ensures AfterStore(mem, ms, fields, q).Some?
  {
    hide BitsOf, EmitOne, TurnAll, AfterAll, InMemoryAll, Write, EndOf, Align;
    TurnAfterAll(mem, ms, fields, 8 * q);
    EmitStruct(EMITTED_C, BitsOf(mem), ms, TurnAll(mem, ms, fields, 8 * q), 8 * q);
  }

  // ---------------------------------------------------------------- The exact condition for types, whatever is refused

  lemma {:induction false} SumPrefix(g: seq<nat>, m: nat, n: nat)
    requires m <= n <= |g|
    ensures Sum(g[..m]) <= Sum(g[..n])
    decreases m
  {
    if m > 0 {
      assert g[..m][1..] == g[1..][..m - 1] && g[..n][1..] == g[1..][..n - 1];
      SumPrefix(g[1..], m - 1, n - 1);
    }
  }

  lemma KeptTail(ns: seq<nat>, blocks: seq<Option<nat>>)
    requires |ns| == |blocks| > 0
    ensures Kept(ns, blocks)[0] == (if blocks[0].None? then 0 else ns[0])
    ensures Kept(ns, blocks)[1..] == Kept(ns[1..], blocks[1..])
  {
  }

  /** A granted block falls behind its final place by no more than all gaps of the encoder up to it. */
  lemma {:induction false} GrantLags(p: nat, gaps: seq<nat>, ns: seq<nat>, end: nat, q: nat, e: seq<nat>, i: nat)
    requires |gaps| >= |ns| && |e| >= |ns| && i < |ns| && Grants(p, gaps, ns, end)[i].Some?
    ensures Spread(q, e, Kept(ns, Grants(p, gaps, ns, end)))[i] + p <=
            Grants(p, gaps, ns, end)[i].value + q + Sum(e[..i + 1])
    decreases |ns|
  {
    hide Kept;
    var blocks := Grants(p, gaps, ns, end);
    KeptTail(ns, blocks);
    assert e[..i + 1][1..] == e[1..][..i];
    if i > 0 {
      var k := Kept(ns, blocks);
      if p + ns[0] > end {
        assert blocks[1..] == Grants(p, gaps, ns[1..], end);
        GrantLags(p, gaps, ns[1..], end, q + e[0] + k[0], e[1..], i - 1);
      } else {
        assert blocks[1..] == Grants(p + ns[0] + gaps[0], gaps[1..], ns[1..], end);
        GrantLags(p + ns[0] + gaps[0], gaps[1..], ns[1..], end, q + e[0] + k[0], e[1..], i - 1);
      }
    }
  }

  /** When all blocks but the last are refused, the last one falls behind by exactly that. */
  lemma {:induction false} LastAlone(p: nat, gaps: seq<nat>, ns: seq<nat>, end: nat, q: nat, e: seq<nat>)
    requires |gaps| >= |ns| > 0 && |e| >= |ns|
    requires p + ns[|ns| - 1] <= end && forall j :: 0 <= j < |ns| - 1 ==> p + ns[j] > end
    ensures Grants(p, gaps, ns, end)[|ns| - 1] == Some(p)
    ensures Spread(q, e, Kept(ns, Grants(p, gaps, ns, end)))[|ns| - 1] == q + Sum(e[..|ns|])
    decreases |ns|
  {
    hide Kept;
    var blocks := Grants(p, gaps, ns, end);
    KeptTail(ns, blocks);
    assert e[..|ns|][1..] == e[1..][..|ns| - 1];
    if |ns| > 1 {
      assert p + ns[0] > end && blocks[1..] == Grants(p, gaps, ns[1..], end);
      LastAlone(p, gaps, ns[1..], end, q + e[0], e[1..]);
    } else {
      assert e[1..][..0] == [];
    }
  }

  /**
    A check on the type alone: all gaps of the encoder, less the static prefix of
    the layout, are less than the distance and the two bytes of a length together.
   */
  predicate Roomy(ms: seq<Ty>, delta: nat) {
    LayoutEntries(ms);
    var n := Lists(TokensAll(ms));
    EncodedCount(TokensAll(ms), 0);
    n > 0 ==> Sum(InBytes(EncodedLayout(TokensAll(ms), 0))[..n]) < InBytes(LayoutFrom([0], ms))[0] + delta + 2
  }

  /**
    Whatever lengths are asked for and whatever the allocator refuses, `T_store` gives
    the value that the struct holds.
   */
  ghost predicate SurvivesRefusals(ms: seq<Ty>, q: nat, delta: nat) {
    forall size, template, len :: Survives(size, ms, template, q, delta, len)
  }

  ghost predicate Survives(size: nat, ms: seq<Ty>, template: seq<CVal>, q: nat, delta: nat, len: nat) {
    Fitting(size, ms, template, q, q + delta, len) ==>
      var fields := Init(ms, template, q + delta, len);
      && InMemoryAll(size, ms, fields) && AfterAll(size, ms, fields, 8 * q) <= 8 * size
      && StoredAsHeld(size, ms, fields, q)
  }

  lemma RoomyIsOut(ms: seq<Ty>, template: seq<CVal>, q: nat, delta: nat, len: nat)
    requires Roomy(ms, delta) && ProperAll(ms, template)
    ensures OutOfTheWay(ms, LengthsAll(ms, template), Given(ms, template, q + delta, len), q)
  {
    hide LayoutFrom, TokensAll, LengthsAll, Lists, EncodedLayout, DataStarts, Spread, Grants, Sum, ProperAll, InBytes;
    var ts, ns, blocks := TokensAll(ms), LengthsAll(ms, template), Given(ms, template, q + delta, len);
    LayoutEntries(ms);
    EncodedCount(ts, 0);
    var l, e := InBytes(LayoutFrom([0], ms)), InBytes(EncodedLayout(ts, 0));
    var starts := DataStarts(ts, Kept(ns, blocks), 8 * q);
    forall i | 0 <= i < |ns| && blocks[i].Some? && ns[i] > 0 ensures starts[i] < 8 * blocks[i].value + 16 {
      GrantLags(q + delta + l[0], l[1..], ns, q + delta + l[0] + len, q, e, i);
      SumPrefix(e, i + 1, |ns|);
      DataStartsSpread(ts, Kept(ns, blocks), q, 0, i);
      assert 8 * q + 0 == 8 * q;
    }
  }

  /** Lengths of which only the last is granted, and then in the way. */
  lemma CrowdedOut(ms: seq<Ty>, template: seq<CVal>, q: nat, delta: nat)
    requires !Roomy(ms, delta) && ProperAll(ms, template) && |LengthsAll(ms, template)| == Lists(TokensAll(ms)) > 0
    requires OneSmall(LengthsAll(ms, template), Lists(TokensAll(ms)) - 1)
    ensures !OutOfTheWay(ms, LengthsAll(ms, template), Given(ms, template, q + delta, 8), q)
  {
    hide LayoutFrom, TokensAll, LengthsAll, Lists, EncodedLayout, DataStarts, Spread, Grants, Sum, ProperAll, InBytes;
    var ts, ns, blocks := TokensAll(ms), LengthsAll(ms, template), Given(ms, template, q + delta, 8);
    LayoutEntries(ms);
    EncodedCount(ts, 0);
    var l, e, i := InBytes(LayoutFrom([0], ms)), InBytes(EncodedLayout(ts, 0)), |ns| - 1;
    LastAlone(q + delta + l[0], l[1..], ns, q + delta + l[0] + 8, q, e);
    DataStartsSpread(ts, Kept(ns, blocks), q, 0, i);
    assert 8 * q + 0 == 8 * q;
    assert blocks[i].Some? && ns[i] > 0 && DataStarts(ts, Kept(ns, blocks), 8 * q)[i] >= 8 * blocks[i].value + 16;
  }

  /**
    Refused allocations, exactly: for every struct type and every distance, all
    structs that `T_init` can make are stored as the value they hold, whatever it
    was refused, if and only if the type is roomy.
   */
  lemma SurvivesRefusalsIff(ms: seq<Ty>, q: nat, delta: nat)
    ensures SurvivesRefusals(ms, q, delta) <==> Roomy(ms, delta)
  {
    hide StoredAsHeld, Fitting, Init, Given, OutOfTheWay, Roomy, LengthsAll, SizedAll, Enough;
    if Roomy(ms, delta) {
      forall size, template, len ensures Survives(size, ms, template, q, delta, len) {
        if Fitting(size, ms, template, q, q + delta, len) {
          ProperTemplate(size, ms, template, q, q + delta, len);
          RoomyIsOut(ms, template, q, delta, len);
          OfferedStoreIff(size, ms, template, q, q + delta, len);
        }
      }
    } else {
      var template := SizedAll(ms, Lists(TokensAll(ms)) - 1);
      SizedLengthsAll(ms, Lists(TokensAll(ms)) - 1);
      NoListIsRoomy(ms, delta);
      CrowdedOut(ms, template, q, delta);
      EnoughFits(ms, template, q, q + delta, 8);
      OfferedStoreIff(Enough(ms, template, q, q + delta, 8), ms, template, q, q + delta, 8);
      assert !Survives(Enough(ms, template, q, q + delta, 8), ms, template, q, delta, 8);
    }
  }

  lemma NoListIsRoomy(ms: seq<Ty>, delta: nat)
    ensures !Roomy(ms, delta) ==> Lists(TokensAll(ms)) > 0
  {
  }

  lemma TwoBlobs()
    ensures TokensAll([TBlob, TBlob]) == [List(1, true), List(1, true)]
    ensures Lists(TokensAll([TBlob, TBlob])) == 2
    ensures LayoutFrom([0], [TBlob, TBlob]) == EncodedLayout(TokensAll([TBlob, TBlob]), 0) == [16, 16, 0]
  {
    var ms, b, bb := [TBlob, TBlob], [List(1, true)], [List(1, true), List(1, true)];
    assert ms[1..] == [TBlob] && b[1..] == [] && bb[1..] == b;
    assert TokensAll([TBlob]) == b;
    LayoutOfTokens(ms);
    assert Lists(b) == 1 && EncodedLayout(b, 0) == [16, 0] == TokenLayout(b);
  }

  lemma TwoBlobsAreTight()
    ensures Tight([List(1, true), List(1, true)])
  {
    var b, bb := [List(1, true)], [List(1, true), List(1, true)];
    assert b[1..] == [] && bb[1..] == b;
    assert WholeByteRuns(b, 0);
    WholeByteRunsAreTight(bb);
  }

  /** `{bytes, bytes}` stored in place is zero copy, but a refused first list spoils it. */
  lemma RefusalSpoilsZeroCopy(q: nat)
    ensures Tight(TokensAll([TBlob, TBlob])) && Spacious([TBlob, TBlob], 0) && !SurvivesRefusals([TBlob, TBlob], q, 0)
  {
    hide Tight, Missing, EncodedLayout, TokensAll, Lists, LayoutFrom, SurvivesRefusals;
    var ms := [TBlob, TBlob];
    TwoBlobs();
    TwoBlobsAreTight();
    TightMissesNothing(ms);
    var e := InBytes(EncodedLayout(TokensAll(ms), 0));
    assert e[..2] == [2, 2] && e[..2][1..] == [2] && [2][1..] == [];
    assert Sum([2]) == 2 && Sum([2, 2]) == 4;
    SurvivesRefusalsIff(ms, q, 0);
  }

  // ---------------------------------------------------------------- The generated path

  /** How far behind the payload a generated invoke function lets the allocator start. */
  function ReplyDistance(ms: seq<Ty>): nat {
    LayoutEntries(ms);
    InBytes(LayoutFrom([0], ms))[0] + 4
  }

  /**
    `T_alloc_init` on the buffer at `txBuf`, `T_init` with the lengths of
    `template`, whatever the user then puts into memory, and `T_store` at `payload`.
    What was refused stays empty, and everything else is stored as it is when its
    turn comes; that is the value the struct held if no granted list is in the way.
   */
  method AllocateAndStore(mem: array<byte>, txBuf: nat, txLen: nat, payload: nat, ms: seq<Ty>, template: seq<CVal>,
                          fill: (seq<byte>, seq<CVal>) -> seq<byte>)
    returns (blocks: seq<Option<nat>>, fields: seq<CVal>, dest: nat, ghost filled: seq<byte>)
    requires payload <= txBuf + 4 && Fitting(mem.Length, ms, template, payload, txBuf + 4, txLen)
    requires Lists(TokensAll(ms)) < 65536 && forall m, fs :: |fill(m, fs)| == |m|
    modifies mem
    ensures blocks == Given(ms, template, txBuf + 4, txLen) && fields == Init(ms, template, txBuf + 4, txLen)
    ensures AllGranted(blocks) <==> Accepts(txBuf, txLen, ms, LengthsAll(ms, template))
    ensures AllGranted(blocks) ==> Ready(filled, ms, fields, payload, txBuf + 4 - payload)
    ensures filled == fill(old(mem[..]), fields) && |filled| == mem.Length && InMemoryAll(|filled|, ms, fields)
    ensures AfterAll(|filled|, ms, fields, 8 * payload) <= 8 * |filled|
    ensures AfterStore(filled, ms, fields, payload) == Some((BitsOf(mem[..]), 8 * dest))
    ensures OutOfTheWay(ms, LengthsAll(ms, template), blocks, payload) ==>
              EmitOne(EMITTED_C, BitsOf(filled), TStruct(ms), VStruct(DenoteAll(filled, ms, fields)), 8 * payload) ==
              Some((BitsOf(mem[..]), 8 * dest))
  {
    hide BitsOf, EmitOne, TurnAll, DenoteAll, InMemoryAll, AfterAll, Align, LayoutFrom, TokensAll, LengthsAll, PlaceAll,
         Lists, AllGranted, Accepts, Ready, OutOfTheWay, Fitting, ProperAll, Offers;
    ProperTemplate(mem.Length, ms, template, payload, txBuf + 4, txLen);
    LengthsCount(ms, template);
    InitInMemory(mem.Length, ms, template, payload, txBuf + 4, txLen);
    OfferedStoreIff(mem.Length, ms, template, payload, txBuf + 4, txLen);
    blocks := AllocateSlices(txBuf, txLen, ms, LengthsAll(ms, template));
    fields := PlaceAll(ms, template, blocks);
    var after := fill(mem[..], fields);
    filled := after;
    forall i | 0 <= i < mem.Length {
      mem[i] := after[i];
    }
    assert mem[..] == after;
    if AllGranted(blocks) {
      GrantedIsReady(after, ms, template, payload, txBuf + 4 - payload, txLen);
    }
    dest := StoreStruct(mem, payload, ms, fields);
  }

  /**
    A reply as generated invoke functions make it: the allocator starts the
    static part of the result behind the payload. The payload is the encoding of
    the value that the struct had when the handler returned: whenever the type is
    spacious and nothing was refused, and whatever was refused when it is roomy.
    By `StoresFaithfullyIff` and `SurvivesRefusalsIff` no other type can promise that.
   */
  method GeneratedReply(mem: array<byte>, payload: nat, size: nat, ms: seq<Ty>, template: seq<CVal>,
                        fill: (seq<byte>, seq<CVal>) -> seq<byte>)
    returns (blocks: seq<Option<nat>>, fields: seq<CVal>, dest: nat, ghost filled: seq<byte>)
    requires ReplyDistance(ms) <= size + 4
    requires Fitting(mem.Length, ms, template, payload, payload + ReplyDistance(ms), size + 4 - ReplyDistance(ms))
    requires Lists(TokensAll(ms)) < 65536 && forall m, fs :: |fill(m, fs)| == |m|
    modifies mem
    ensures var at, len := payload + ReplyDistance(ms), size + 4 - ReplyDistance(ms);
            blocks == Given(ms, template, at, len) && fields == Init(ms, template, at, len)
    ensures filled == fill(old(mem[..]), fields) && |filled| == mem.Length && InMemoryAll(|filled|, ms, fields)
    ensures AfterAll(|filled|, ms, fields, 8 * payload) <= 8 * |filled|
    ensures AfterStore(filled, ms, fields, payload) == Some((BitsOf(mem[..]), 8 * dest))
    ensures || OutOfTheWay(ms, LengthsAll(ms, template), blocks, payload)
            || Roomy(ms, ReplyDistance(ms))
            || (AllGranted(blocks) && Spacious(ms, ReplyDistance(ms))) ==>
              EmitOne(EMITTED_C, BitsOf(filled), TStruct(ms), VStruct(DenoteAll(filled, ms, fields)), 8 * payload) ==
              Some((BitsOf(mem[..]), 8 * dest))
  {
    hide BitsOf, EmitOne, DenoteAll, InMemoryAll, AfterAll, Missing, Align, Lists, LengthsAll, ProperAll, AfterStore,
         LayoutFrom, Fitting, Given, Init, OutOfTheWay, Roomy, AllGranted, Accepts;
    LayoutEntries(ms);
    var layout, _, _ := Decorate(ms);
    var l0 := InBytes(layout)[0];
    ProperTemplate(mem.Length, ms, template, payload, payload + ReplyDistance(ms), size + 4 - ReplyDistance(ms));
    blocks, fields, dest, filled := AllocateAndStore(mem, payload + l0, size - l0, payload, ms, template, fill);
    if Roomy(ms, ReplyDistance(ms)) {
      RoomyIsOut(ms, template, payload, ReplyDistance(ms), size - l0);
    } else if AllGranted(blocks) && Spacious(ms, ReplyDistance(ms)) {
      StoresFaithfullyIff(ms, payload, ReplyDistance(ms));
    }
  }

  /**
    A message that the user builds in the transmit buffer itself, as for a
    notification: for tight types the store is zero copy when nothing was refused,
    the value is stored as it was and every slice keeps its bytes. When a list was
    refused, the value is still stored as it was if no granted list is in the way.
   */
  method InPlaceMessage(mem: array<byte>, txBuf: nat, txLen: nat, ms: seq<Ty>, template: seq<CVal>,
                        fill: (seq<byte>, seq<CVal>) -> seq<byte>)
    returns (blocks: seq<Option<nat>>, fields: seq<CVal>, dest: nat, ghost filled: seq<byte>)
    requires Fitting(mem.Length, ms, template, txBuf + 4, txBuf + 4, txLen)
    requires Lists(TokensAll(ms)) < 65536 && forall m, fs :: |fill(m, fs)| == |m|
    modifies mem
    ensures blocks == Given(ms, template, txBuf + 4, txLen) && fields == Init(ms, template, txBuf + 4, txLen)
    ensures AllGranted(blocks) <==> Accepts(txBuf, txLen, ms, LengthsAll(ms, template))
    ensures filled == fill(old(mem[..]), fields) && |filled| == mem.Length && InMemoryAll(|filled|, ms, fields)
    ensures Within(mem.Length, SlicesAll(ms, fields), LengthsAll(ms, fields))
    ensures || OutOfTheWay(ms, LengthsAll(ms, template), blocks, txBuf + 4)
            || (AllGranted(blocks) && Tight(TokensAll(ms))) ==>
              EmitOne(EMITTED_C, BitsOf(filled), TStruct(ms), VStruct(DenoteAll(filled, ms, fields)),
                      8 * (txBuf + 4)) ==
              Some((BitsOf(mem[..]), 8 * dest))
    ensures AllGranted(blocks) && Tight(TokensAll(ms)) ==>
              forall i :: 0 <= i < |SlicesAll(ms, fields)| ==>
                Block(mem[..], SlicesAll(ms, fields)[i].ptr, LengthsAll(ms, fields)[i]) ==
                Block(filled, SlicesAll(ms, fields)[i].ptr, LengthsAll(ms, fields)[i])
  {
    hide BitsOf, EmitOne, DenoteAll, InMemoryAll, AfterAll, Align, Lists, LengthsAll, SlicesAll, ProperAll, Tight,
         TokensAll, TurnAll, Block, Within, Allocated, Fitting, Given, Init, OutOfTheWay, AllGranted, Accepts;
    ProperTemplate(mem.Length, ms, template, txBuf + 4, txBuf + 4, txLen);
    blocks, fields, dest, filled := AllocateAndStore(mem, txBuf, txLen, txBuf + 4, ms, template, fill);
    SliceDataAll(filled, ms, fields);
    if AllGranted(blocks) && Tight(TokensAll(ms)) {
      ZeroCopyStore(filled, mem[..], ms, fields, txBuf + 4, 8 * dest);
    }
  }

  // ---------------------------------------------------------------- A family of types around the limit

  /** `n` times `BitU[1], U8` */
  function Pairs(n: nat): seq<Ty> {
    if n == 0 then [] else [TBit(1), TNum(U8)] + Pairs(n - 1)
  }

  /** `{list[U8], n times (BitU[1], U8), BitU[1], list[U8]}` */
  function Padded(n: nat): seq<Ty> {
    [TList(U8)] + Pairs(n) + [TBit(1), TList(U8)]
  }

  lemma {:induction false} TokensAllAppend(ts: seq<Ty>, us: seq<Ty>)
    ensures TokensAll(ts + us) == TokensAll(ts) + TokensAll(us)
    decreases |ts|
  {
    if ts == [] {
      assert ts + us == us;
    } else {
      assert (ts + us)[1..] == ts[1..] + us;
      TokensAllAppend(ts[1..], us);
    }
  }

  function PairTokens(n: nat): seq<Token> {
    if n == 0 then [] else [Bits(1), Prim(1)] + PairTokens(n - 1)
  }

  lemma PairsStep(n: nat)
    ensures Pairs(n) == if n == 0 then [] else [TBit(1), TNum(U8)] + Pairs(n - 1)
  {
  }

  lemma {:induction false} TokensOfPairs(n: nat)
    ensures TokensAll(Pairs(n)) == PairTokens(n)
    decreases n
  {
    hide Pairs;
    PairsStep(n);
    if n > 0 {
      TokensOfPairs(n - 1);
      var ts := Pairs(n);
      assert ts[1..] == [TNum(U8)] + Pairs(n - 1) && ts[1..][1..] == Pairs(n - 1);
      assert TokensAll(ts[1..]) == [Prim(1)] + PairTokens(n - 1);
    }
  }

  lemma {:induction false} LayoutsOfPairs(n: nat, z: seq<Token>, cur: nat)
    requires cur % 8 == 0
    ensures EncodedLayout(PairTokens(n) + z, cur) == EncodedLayout(z, cur + 16 * n)
    ensures TokenLayout(PairTokens(n) + z) == [9 * n + TokenLayout(z)[0]] + TokenLayout(z)[1..]
    ensures Lists(PairTokens(n) + z) == Lists(z)
    decreases n
  {
    hide EncodedLayout, TokenLayout, Lists;
    if n == 0 {
      assert PairTokens(n) + z == z;
      assert TokenLayout(z) == [TokenLayout(z)[0]] + TokenLayout(z)[1..];
    } else {
      var r := PairTokens(n - 1) + z;
      LayoutsOfPairs(n - 1, z, cur + 16);
      assert PairTokens(n) + z == [Bits(1)] + ([Prim(1)] + r);
      LayoutsOfPair(r, cur);
    }
  }

  lemma LayoutsOfPair(r: seq<Token>, cur: nat)
    requires cur % 8 == 0
    ensures var ts := [Bits(1)] + ([Prim(1)] + r);
            && EncodedLayout(ts, cur) == EncodedLayout(r, cur + 16)
            && TokenLayout(ts) == [9 + TokenLayout(r)[0]] + TokenLayout(r)[1..]
            && Lists(ts) == Lists(r)
  {
    var ts := [Bits(1)] + ([Prim(1)] + r);
    assert ts[1..] == [Prim(1)] + r && ts[1..][1..] == r;
    assert Align(cur + 1) == cur + 8;
    assert EncodedLayout(ts[1..], cur + 1) == EncodedLayout(r, cur + 16);
    assert TokenLayout(ts[1..]) == [8 + TokenLayout(r)[0]] + TokenLayout(r)[1..];
    assert Lists(ts[1..]) == Lists(r);
  }

  lemma PaddedTokens(n: nat)
    ensures TokensAll(Padded(n)) == [List(1, false)] + (PairTokens(n) + [Bits(1), List(1, false)])
  {
    TokensAllAppend([TList(U8)], Pairs(n));
    TokensAllAppend([TList(U8)] + Pairs(n), [TBit(1), TList(U8)]);
    TokensOfPairs(n);
    assert [TList(U8)][1..] == [] && [TBit(1), TList(U8)][1..] == [TList(U8)];
  }

  lemma LastLayouts(cur: nat)
    requires cur % 8 == 0
    ensures TokenLayout([Bits(1), List(1, false)]) == [17, 0] && Lists([Bits(1), List(1, false)]) == 1
    ensures EncodedLayout([Bits(1), List(1, false)], cur) == [cur + 24, 0]
  {
    var z := [Bits(1), List(1, false)];
    assert z[1..] == [List(1, false)] && z[1..][1..] == [];
    assert Align(cur + 1) == cur + 8;
    assert TokenLayout(z[1..]) == [16, 0] && Lists(z[1..]) == 1;
    assert EncodedLayout(z[1..], cur + 1) == [cur + 24, 0];
  }

  lemma FirstLayouts(r: seq<Token>)
    ensures TokenLayout([List(1, false)] + r) == [16] + TokenLayout(r)
    ensures EncodedLayout([List(1, false)] + r, 0) == [16] + EncodedLayout(r, 0)
    ensures Lists([List(1, false)] + r) == 1 + Lists(r)
  {
    assert ([List(1, false)] + r)[1..] == r;
  }

  lemma PaddedLayouts(n: nat)
    ensures LayoutFrom([0], Padded(n)) == [16, 9 * n + 17, 0]
    ensures EncodedLayout(TokensAll(Padded(n)), 0) == [16, 16 * n + 24, 0]
    ensures Lists(TokensAll(Padded(n))) == 2
  {
    hide EncodedLayout, TokenLayout, Lists, TokensAll, LayoutFrom, Padded, PairTokens;
    var z := [Bits(1), List(1, false)];
    PaddedTokens(n);
    LayoutOfTokens(Padded(n));
    LayoutsOfPairs(n, z, 0);
    LastLayouts(16 * n);
    FirstLayouts(PairTokens(n) + z);
  }

  /** A generated reply of this type is right for all values if and only if there are at most eight pairs. */
  lemma EightPairsAtMost(n: nat)
    ensures ReplyDistance(Padded(n)) == 6
    ensures Spacious(Padded(n), ReplyDistance(Padded(n))) <==> n <= 8
  {
    hide LayoutFrom, EncodedLayout, Lists, TokensAll, Padded;
    PaddedLayouts(n);
    MissingIs(Padded(n));
    var l, e := InBytes(LayoutFrom([0], Padded(n))), InBytes(EncodedLayout(TokensAll(Padded(n)), 0));
    assert l[0] == 2 && e[0] == 2 && e[1] == 2 * n + 3;
    assert Shortfall(l[1..][1..], e[1..][1..], 0) == 0;
    assert Shortfall(l[1..], e[1..], 1) == e[1] - l[1];
    assert Shortfall(l, e, 2) == e[1] - l[1];
  }

  /** With nine pairs: a struct that a generated invoke function stores as another value. */
  lemma NinePairsSpoil(payload: nat) returns (mem: seq<byte>, fields: seq<CVal>)
    ensures Ready(mem, Padded(9), fields, payload, ReplyDistance(Padded(9)))
    ensures AfterAll(|mem|, Padded(9), fields, 8 * payload) <= 8 * |mem|
    ensures TurnAll(mem, Padded(9), fields, 8 * payload) != DenoteAll(mem, Padded(9), fields)
  {
    hide *;
    EightPairsAtMost(9);
    mem, fields := SpoiledReply(Padded(9), payload, ReplyDistance(Padded(9)));
  }
}
