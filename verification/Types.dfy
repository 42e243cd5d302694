/**
  Protocol types and their values, as a protocol definition declares them, and
  how they flatten to the tokens and leaves of the wire format.
 */
module Types {
  import opened BitOps
  import opened BitString
  import opened Results
  import opened Wire

  datatype Num = U8 | I8 | U16 | I16 | U32 | I32 | U64 | I64 | F32 | F64

  function Width(k: Num): (w: width)
    ensures w >= 1
  {
    match k
    case U8 => 1 case I8 => 1
    case U16 => 2 case I16 => 2
    case U32 => 4 case I32 => 4 case F32 => 4
    case U64 => 8 case I64 => 8 case F64 => 8
  }

  /** Floats are opaque bit patterns and so unsigned here. */
  predicate Signed(k: Num) {
    k in {I8, I16, I32, I64}
  }

  predicate InRange(k: Num, x: int) {
    var m: int := Pow2(8 * Width(k) - 1);
    if Signed(k) then -m <= x < m else 0 <= x < 2 * m
  }

  /** Two's complement. */
  function Pattern(k: Num, x: int): (n: nat)
    requires InRange(k, x)
    ensures n < Pow2(8 * Width(k))
  {
    if x < 0 then x + Pow2(8 * Width(k)) else x
  }

  function Value(k: Num, n: nat): (x: int)
    requires n < Pow2(8 * Width(k))
    ensures InRange(k, x) && Pattern(k, x) == n
  {
    if Signed(k) && n >= Pow2(8 * Width(k) - 1) then n - Pow2(8 * Width(k)) else n
  }

  datatype Ty =
    | TNum(k: Num)
    | TBit(n: nat)
    | TList(k: Num)
    | TBlob                       // str and bytes
    | TStruct(members: seq<Ty>)

  datatype Val =
    | VNum(x: int)
    | VList(xs: seq<int>)         // also the bytes of a str or bytes value
    | VStruct(vs: seq<Val>)       // an instance of a struct class
    | VTuple(vs: seq<Val>)        // a plain tuple

  predicate AllInRange(k: Num, xs: seq<int>) {
    forall i :: 0 <= i < |xs| ==> InRange(k, xs[i])
  }

  function Patterns(k: Num, xs: seq<int>): (r: seq<nat>)
    requires AllInRange(k, xs)
    ensures |r| == |xs| && Below(r, Pow2(8 * Width(k)))
    ensures forall i :: 0 <= i < |xs| ==> r[i] == Pattern(k, xs[i])
  {
    seq(|xs|, i requires 0 <= i < |xs| => Pattern(k, xs[i]))
  }

  function Values(k: Num, ns: seq<nat>): (r: seq<int>)
    requires Below(ns, Pow2(8 * Width(k)))
    ensures |r| == |ns| && AllInRange(k, r) && Patterns(k, r) == ns
  {
    seq(|ns|, i requires 0 <= i < |ns| => Value(k, ns[i]))
  }

  /** The kind of element of a list, str or bytes type. */
  function Element(t: Ty): Num
    requires t.TList? || t.TBlob?
  {
    if t.TList? then t.k else U8
  }

  /** The list is in range and its length prefix does not overflow. */
  predicate ListConforms(k: Num, v: Val) {
    v.VList? && AllInRange(k, v.xs) && |Items(Width(k), Patterns(k, v.xs))| / 8 < 65536
  }

  predicate Conforms(t: Ty, v: Val)
    decreases t, 1
  {
    match t
    case TNum(k) => v.VNum? && InRange(k, v.x)
    case TBit(n) => v.VNum? && 0 <= v.x < Pow2(n)
    case TList(k) => ListConforms(k, v)
    case TBlob => ListConforms(U8, v)
    case TStruct(ms) => v.VStruct? && ConformAll(ms, v.vs)
  }

  predicate ConformAll(ts: seq<Ty>, vs: seq<Val>)
    decreases ts, 0
  {
    |ts| == |vs| && (ts != [] ==> Conforms(ts[0], vs[0]) && ConformAll(ts[1..], vs[1..]))
  }

  function Tokens(t: Ty): (r: seq<Token>)
    decreases t, 1
  {
    match t
    case TNum(k) => [Prim(Width(k))]
    case TBit(n) => [Bits(n)]
    case TList(k) => [List(Width(k), false)]
    case TBlob => [List(1, true)]
    case TStruct(ms) => [Open] + TokensAll(ms) + [Close]
  }

  function TokensAll(ts: seq<Ty>): (r: seq<Token>)
    decreases ts, 0
  {
    if ts == [] then [] else Tokens(ts[0]) + TokensAll(ts[1..])
  }

  lemma BracketTyped(ts: seq<Token>, ls: seq<Leaf>)
    requires Typed(ts, ls)
    ensures Typed([Open] + ts + [Close], ls)
  {
    hide Typed;
    NothingTyped();
    assert ls + [] == ls && [Close][1..] == [];
    TypedStep([Close], []);
    TypedAppend(ts, [Close], ls, []);
    assert ([Open] + ts + [Close])[1..] == ts + [Close];
    TypedStep([Open] + ts + [Close], ls);
  }

  lemma NothingTyped()
    ensures Typed([], [])
  {
  }

  function Leaves(t: Ty, v: Val): (ls: seq<Leaf>)
    requires Conforms(t, v)
    ensures Typed(Tokens(t), ls)
    decreases t, 1
  {
    match t
    case TNum(k) => [Leaf.Num(Pattern(k, v.x))]
    case TBit(n) => [Leaf.Num(v.x)]
    case TList(k) => [Arr(Patterns(k, v.xs))]
    case TBlob => [Arr(Patterns(U8, v.xs))]
    case TStruct(ms) =>
      var ls := LeavesAll(ms, v.vs);
      BracketTyped(TokensAll(ms), ls);
      ls
  }

  function LeavesAll(ts: seq<Ty>, vs: seq<Val>): (ls: seq<Leaf>)
    requires ConformAll(ts, vs)
    ensures Typed(TokensAll(ts), ls)
    decreases ts, 0
  {
    if ts == [] then []
    else
      TypedAppend(Tokens(ts[0]), TokensAll(ts[1..]), Leaves(ts[0], vs[0]), LeavesAll(ts[1..], vs[1..]));
      Leaves(ts[0], vs[0]) + LeavesAll(ts[1..], vs[1..])
  }

  // ---------------------------------------------------------------- Reading values

  lemma {:induction false} ReadItemsBelow(w: width, b: seq<bool>)
    ensures Below(ReadItems(w, b), Pow2(8 * w))
    ensures |Items(w, ReadItems(w, b))| <= |b|
    decreases |b|
  {
    if |b| >= 8 * w {
      NatOfBound(b[..8 * w]);
      ReadItemsBelow(w, b[8 * w..]);
      var r := ReadItems(w, b);
      assert r[1..] == ReadItems(w, b[8 * w..]);
    }
  }

  /** What is read always fits the type it is read as. */
  lemma ReadLeafFits(d: Dialect, b: seq<bool>, t: Token, u: nat)
    requires Takes(t) && ReadLeaf(d, b, t, u).Some?
    ensures Fits(t, ReadLeaf(d, b, t, u).value.0)
  {
    hide Pow2, NatOf, ReadItems, Items, WholePart;
    match t
    case Bits(n) =>
      if n > 0 {
        NatOfBound(b[u..u + n]);
      }
    case Prim(w) =>
      NatOfBound(b[Align(u)..Align(u) + 8 * w]);
    case List(w, blob) =>
      var s := Align(u);
      var len, avail := NatOf(b[s..s + 16]), b[s + 16..];
      PrefixBelow(b[s..s + 16]);
      var whole := WholePart(len, w);
      ItemsFit(w, blob, if 8 * whole <= |avail| then avail[..8 * whole] else avail, len);
  }

  lemma ItemsFit(w: width, blob: bool, data: seq<bool>, len: nat)
    requires len < 65536 && |data| <= 8 * len
    ensures Fits(List(w, blob), Arr(ReadItems(w, data)))
  {
    ReadItemsBelow(w, data);
  }

  lemma PrefixBelow(b: seq<bool>)
    requires |b| == 16
    ensures NatOf(b) < 65536
  {
    NatOfBound(b);
    Pow2Add(8, 8);
    assert Pow2(8) == 256;
  }

  /** Reads a value of type `t` from bit `u` on; also the reader's final position. */
  function Read(d: Dialect, b: seq<bool>, t: Ty, u: nat): Option<(Val, nat)>
    decreases t, 1
  {
    match t
    case TNum(k) =>
      var (l, len) :- ReadLeaf(d, b, Prim(Width(k)), u);
      ReadLeafFits(d, b, Prim(Width(k)), u);
      Some((VNum(Value(k, l.x)), Next(d, Prim(Width(k)), u, len)))
    case TBit(n) =>
      var (l, len) :- ReadLeaf(d, b, Bits(n), u);
      ReadLeafFits(d, b, Bits(n), u);
      Some((VNum(l.x), Next(d, Bits(n), u, len)))
    case TList(k) => ReadList(d, b, k, List(Width(k), false), u)
    case TBlob => ReadList(d, b, U8, List(1, true), u)
    case TStruct(ms) =>
      var (vs, e) :- ReadAll(d, b, ms, Next(d, Open, u, 0));
      Some((VStruct(vs), Next(d, Close, e, 0)))
  }

  function ReadList(d: Dialect, b: seq<bool>, k: Num, t: Token, u: nat): Option<(Val, nat)>
    requires t.List? && t.w == Width(k)
  {
    var (l, len) :- ReadLeaf(d, b, t, u);
    ReadLeafFits(d, b, t, u);
    Some((VList(Values(k, l.items)), Next(d, t, u, len)))
  }

  function ReadAll(d: Dialect, b: seq<bool>, ts: seq<Ty>, u: nat): Option<(seq<Val>, nat)>
    decreases ts, 0
  {
    if ts == [] then Some(([], u))
    else
      var (v, e) :- Read(d, b, ts[0], u);
      var (vs, e') :- ReadAll(d, b, ts[1..], e);
      Some(([v] + vs, e'))
  }

  /** Reading by kind of type. */
  lemma ReadStruct(d: Dialect, b: seq<bool>, ms: seq<Ty>, u: nat)
    ensures Read(d, b, TStruct(ms), u) ==
            (var r := ReadAll(d, b, ms, Next(d, Open, u, 0));
             if r.None? then None else Some((VStruct(r.value.0), Next(d, Close, r.value.1, 0))))
  {
    hide ReadAll, Next;
  }

  lemma ReadSequence(d: Dialect, b: seq<bool>, t: Ty, u: nat)
    requires t.TList? || t.TBlob?
    ensures Tokens(t) == [List(Width(Element(t)), t.TBlob?)]
    ensures Read(d, b, t, u) == ReadList(d, b, Element(t), Tokens(t)[0], u)
  {
    hide ReadList;
  }

  lemma GetOne(d: Dialect, b: seq<bool>, t: Token, u: nat)
    ensures Get(d, b, [t], u) ==
            if !Takes(t) then Some(([], Next(d, t, u, 0)))
            else
              var l := ReadLeaf(d, b, t, u);
              if l.None? then None else Some(([l.value.0], Next(d, t, u, l.value.1)))
  {
    assert [t][1..] == [];
    if Takes(t) && ReadLeaf(d, b, t, u).Some? {
      var l := ReadLeaf(d, b, t, u).value.0;
      assert [l] + [] == [l];
    }
  }

  /** Reading a value is reading its leaves. */
  lemma {:induction false} ReadIsGet(d: Dialect, b: seq<bool>, t: Ty, u: nat)
    ensures var r, g := Read(d, b, t, u), Get(d, b, Tokens(t), u);
            && r.Some? == g.Some?
            && (r.Some? ==>
                  Conforms(t, r.value.0) && Leaves(t, r.value.0) == g.value.0 && r.value.1 == g.value.1)
    decreases t, 1
  {
    match t
    case TNum(k) =>
      GetOne(d, b, Prim(Width(k)), u);
    case TBit(n) =>
      GetOne(d, b, Bits(n), u);
      if ReadLeaf(d, b, Bits(n), u).Some? {
        ReadLeafFits(d, b, Bits(n), u);
      }
    case TList(k) =>
      GetOne(d, b, List(Width(k), false), u);
      ReadListConforms(d, b, k, List(Width(k), false), u);
    case TBlob =>
      GetOne(d, b, List(1, true), u);
      ReadListConforms(d, b, U8, List(1, true), u);
    case TStruct(ms) =>
      var v := Next(d, Open, u, 0);
      ReadAllIsGet(d, b, ms, v);
      GetOne(d, b, Open, u);
      GetAppend(d, b, [Open], TokensAll(ms), u);
      GetAppend(d, b, [Open] + TokensAll(ms), [Close], u);
      var g := Get(d, b, TokensAll(ms), v);
      if g.Some? {
        GetOne(d, b, Close, g.value.1);
        assert [] + g.value.0 + [] == g.value.0;
      }
  }

  lemma ReadListConforms(d: Dialect, b: seq<bool>, k: Num, t: Token, u: nat)
    requires t.List? && t.w == Width(k)
    ensures ReadList(d, b, k, t, u).Some? == ReadLeaf(d, b, t, u).Some?
    ensures ReadList(d, b, k, t, u).Some? ==>
              var v := ReadList(d, b, k, t, u).value.0;
              ListConforms(k, v) && Arr(Patterns(k, v.xs)) == ReadLeaf(d, b, t, u).value.0
  {
    if ReadLeaf(d, b, t, u).Some? {
      ReadLeafFits(d, b, t, u);
    }
  }

  lemma {:induction false} ReadAllIsGet(d: Dialect, b: seq<bool>, ts: seq<Ty>, u: nat)
    ensures var r, g := ReadAll(d, b, ts, u), Get(d, b, TokensAll(ts), u);
            && r.Some? == g.Some?
            && (r.Some? ==>
                  ConformAll(ts, r.value.0) && LeavesAll(ts, r.value.0) == g.value.0 && r.value.1 == g.value.1)
    decreases ts, 0
  {
    if ts != [] {
      ReadIsGet(d, b, ts[0], u);
      GetAppend(d, b, Tokens(ts[0]), TokensAll(ts[1..]), u);
      var r := Read(d, b, ts[0], u);
      if r.Some? {
        ReadAllIsGet(d, b, ts[1..], r.value.1);
        var rs := ReadAll(d, b, ts[1..], r.value.1);
        if rs.Some? {
          assert ([r.value.0] + rs.value.0)[1..] == rs.value.0;
        }
      }
    }
  }

  // ---------------------------------------------------------------- Reading from a window

  /** A value that is read from a window of a buffer is read alike from the whole buffer. */
  lemma {:induction false} ReadWindow(d: Dialect, b: seq<bool>, s: nat, e: nat, t: Ty, u: nat)
    requires !d.truncates && s % 8 == 0 && s <= e <= |b| && Read(d, b[s..e], t, u).Some?
    ensures var (v, u') := Read(d, b[s..e], t, u).value; Read(d, b, t, s + u) == Some((v, s + u'))
    decreases t, 1
  {
    hide ReadLeaf, Next, Value, Values;
    match t
    case TNum(k) => ReadLeafWindow(d, b, s, e, Prim(Width(k)), u);
    case TBit(n) => ReadLeafWindow(d, b, s, e, Bits(n), u);
    case TList(k) => ReadLeafWindow(d, b, s, e, List(Width(k), false), u);
    case TBlob => ReadLeafWindow(d, b, s, e, List(1, true), u);
    case TStruct(ms) =>
      ShiftBracket(d, s, u);
      ReadAllWindow(d, b, s, e, ms, Next(d, Open, u, 0));
      ShiftBracket(d, s, ReadAll(d, b[s..e], ms, Next(d, Open, u, 0)).value.1);
  }

  lemma ShiftBracket(d: Dialect, s: nat, u: nat)
    requires s % 8 == 0
    ensures Next(d, Open, s + u, 0) == s + Next(d, Open, u, 0)
    ensures Next(d, Close, s + u, 0) == s + Next(d, Close, u, 0)
  {
    AlignAdd(u, s);
  }

  lemma {:induction false} ReadAllWindow(d: Dialect, b: seq<bool>, s: nat, e: nat, ts: seq<Ty>, u: nat)
    requires !d.truncates && s % 8 == 0 && s <= e <= |b| && ReadAll(d, b[s..e], ts, u).Some?
    ensures var (vs, u') := ReadAll(d, b[s..e], ts, u).value; ReadAll(d, b, ts, s + u) == Some((vs, s + u'))
    decreases ts, 0
  {
    hide Read;
    if ts != [] {
      ReadWindow(d, b, s, e, ts[0], u);
      ReadAllWindow(d, b, s, e, ts[1..], Read(d, b[s..e], ts[0], u).value.1);
    }
  }
}
