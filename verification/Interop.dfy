/**
  Which implementation can read what which other implementation wrote, for
  values of protocol types.
 */
module Interop {
  import opened BitOps
  import opened BitString
  import opened Results
  import opened Wire
  import opened Types

  // ---------------------------------------------------------------- Leaves determine values

  lemma {:induction false} SameCount(ts: seq<Token>, ls: seq<Leaf>, ms: seq<Leaf>)
    requires Typed(ts, ls) && Typed(ts, ms)
    ensures |ls| == |ms|
    decreases |ts|
  {
    if ts != [] {
      SameCount(ts[1..], Rest(ts[0], ls), Rest(ts[0], ms));
    }
  }

  lemma PatternsInjective(k: Num, xs: seq<int>, ys: seq<int>)
    requires AllInRange(k, xs) && AllInRange(k, ys) && Patterns(k, xs) == Patterns(k, ys)
    ensures xs == ys
  {
    assert |xs| == |ys|;
    forall i | 0 <= i < |xs| ensures xs[i] == ys[i] {
      assert Pattern(k, xs[i]) == Patterns(k, xs)[i] == Patterns(k, ys)[i] == Pattern(k, ys[i]);
    }
  }

  lemma {:induction false} LeavesInjective(t: Ty, v: Val, v': Val)
    requires Conforms(t, v) && Conforms(t, v') && Leaves(t, v) == Leaves(t, v')
    ensures v == v'
    decreases t, 1
  {
    match t
    case TNum(k) =>
      assert Leaves(t, v)[0] == Leaves(t, v')[0];
    case TBit(n) =>
      assert Leaves(t, v)[0] == Leaves(t, v')[0];
    case TList(k) =>
      assert Leaves(t, v)[0] == Leaves(t, v')[0];
      PatternsInjective(k, v.xs, v'.xs);
    case TBlob =>
      assert Leaves(t, v)[0] == Leaves(t, v')[0];
      PatternsInjective(U8, v.xs, v'.xs);
    case TStruct(ms) =>
      LeavesAllInjective(ms, v.vs, v'.vs);
  }

  lemma {:induction false} LeavesAllInjective(ts: seq<Ty>, vs: seq<Val>, vs': seq<Val>)
    requires ConformAll(ts, vs) && ConformAll(ts, vs') && LeavesAll(ts, vs) == LeavesAll(ts, vs')
    ensures vs == vs'
    decreases ts, 0
  {
    if ts != [] {
      var a, a' := Leaves(ts[0], vs[0]), Leaves(ts[0], vs'[0]);
      var b, b' := LeavesAll(ts[1..], vs[1..]), LeavesAll(ts[1..], vs'[1..]);
      SameCount(Tokens(ts[0]), a, a');
      assert a == (a + b)[..|a|] == (a' + b')[..|a|] == a';
      assert b == (a + b)[|a|..] == (a' + b')[|a|..] == b';
      LeavesInjective(ts[0], vs[0], vs'[0]);
      LeavesAllInjective(ts[1..], vs[1..], vs'[1..]);
      assert vs == [vs[0]] + vs[1..] && vs' == [vs'[0]] + vs'[1..];
    }
  }

  // ---------------------------------------------------------------- Values on the wire

  /** Bit position after `vs` has been written from `p` on. */
  function EndOf(d: Dialect, ts: seq<Ty>, vs: seq<Val>, p: nat): (e: nat)
    requires ConformAll(ts, vs)
    ensures p <= e
  {
    End(d, TokensAll(ts), LeavesAll(ts, vs), p)
  }

  function Write(d: Dialect, b: seq<bool>, ts: seq<Ty>, vs: seq<Val>, p: nat): (r: seq<bool>)
    requires Writer(d) && ConformAll(ts, vs) && EndOf(d, ts, vs, p) <= |b|
    ensures |r| == |b|
  {
    Put(d, b, TokensAll(ts), LeavesAll(ts, vs), p)
  }

  predicate CompatibleTypes(w: Dialect, r: Dialect, ts: seq<Ty>) {
    Compatible(w, r, TokensAll(ts), 0, 0)
  }

  /** Reads `vs` back, from any buffer that starts with the written bits. */
  lemma ReadOfWrite(w: Dialect, r: Dialect, b: seq<bool>, ts: seq<Ty>, vs: seq<Val>, p: nat, u: nat, b': seq<bool>)
    requires Writer(w) && ConformAll(ts, vs) && EndOf(w, ts, vs, p) <= |b|
    requires Align(p) == Align(u) && Compatible(w, r, TokensAll(ts), p % 8, u % 8)
    requires EndOf(w, ts, vs, p) <= |b'|
    requires b'[..EndOf(w, ts, vs, p)] == Write(w, b, ts, vs, p)[..EndOf(w, ts, vs, p)]
    ensures ReadAll(r, b', ts, u).Some?
    ensures ReadAll(r, b', ts, u).value.0 == vs
    ensures Align(ReadAll(r, b', ts, u).value.1) == Align(EndOf(w, ts, vs, p))
  {
    RoundTrip(w, r, b, TokensAll(ts), LeavesAll(ts, vs), p, u, b');
    ReadAllIsGet(r, b', ts, u);
    LeavesAllInjective(ts, ReadAll(r, b', ts, u).value.0, vs);
  }

  /** Every list of leaves that the types allow comes from values. */
  lemma ValuesOfLeaves(ts: seq<Ty>, ls: seq<Leaf>) returns (vs: seq<Val>)
    requires Typed(TokensAll(ts), ls)
    ensures ConformAll(ts, vs) && LeavesAll(ts, vs) == ls
  {
    var d, tk := EMITTED_C, TokensAll(ts);
    SelfCompatible(d, tk, 0);
    var b := seq(End(d, tk, ls, 0), _ => false);
    RoundTrip(d, d, b, tk, ls, 0, 0, Put(d, b, tk, ls, 0));
    ReadAllIsGet(d, Put(d, b, tk, ls, 0), ts, 0);
    vs := ReadAll(d, Put(d, b, tk, ls, 0), ts, 0).value.0;
  }

  /** All values of these types that fit a buffer survive the trip from `w` to `r`. */
  ghost predicate Understands(w: Dialect, r: Dialect, b: seq<bool>, ts: seq<Ty>)
    requires Writer(w)
  {
    forall vs :: ConformAll(ts, vs) && EndOf(w, ts, vs, 0) <= |b| ==>
      var g := ReadAll(r, Write(w, b, ts, vs, 0), ts, 0); g.Some? && g.value.0 == vs
  }

  /** Size in bits of the smallest message of these types. */
  function MinEnd(w: Dialect, ts: seq<Ty>): nat {
    End(w, TokensAll(ts), Zeros(TokensAll(ts)), 0)
  }

  lemma AlignMonotone(p: nat, q: nat)
    requires p <= q
    ensures Align(p) <= Align(q)
  {
  }

  lemma NextMonotone(d: Dialect, t: Token, p: nat, q: nat, m: nat, n: nat)
    requires p <= q && m <= n
    ensures Next(d, t, p, m) <= Next(d, t, q, n)
  {
    hide Align;
    AlignMonotone(p, q);
  }

  lemma LeastImage(ts: seq<Token>, ls: seq<Leaf>)
    requires ts != [] && Typed(ts, ls)
    ensures |Image(ts, Zeros(ts))| <= |Image(ts, ls)|
  {
    hide Items, NatBits, Pow2;
    if ts[0].List? {
      assert Zeros(ts)[0] == Arr([]);
      NoItemBits(ts[0].w);
    }
  }

  lemma NoItemBits(w: width)
    ensures Items(w, []) == []
  {
  }

  /** No message of these types is shorter than the all-zero one. */
  lemma {:induction false} ZerosAreLeast(d: Dialect, ts: seq<Token>, ls: seq<Leaf>, p: nat, q: nat)
    requires Typed(ts, ls) && p <= q
    ensures End(d, ts, Zeros(ts), p) <= End(d, ts, ls, q)
    decreases |ts|
  {
    hide Image, Next, Fits;
    if ts != [] {
      LeastImage(ts, ls);
      assert Rest(ts[0], Zeros(ts)) == Zeros(ts[1..]);
      var m, n := |Image(ts, Zeros(ts))|, |Image(ts, ls)|;
      NextMonotone(d, ts[0], p, q, m, n);
      ZerosAreLeast(d, ts[1..], Rest(ts[0], ls), Next(d, ts[0], p, m), Next(d, ts[0], q, n));
    }
  }

  /**
    The exact condition for values: in a buffer that can hold some message of
    these types, reader `r` gets back every value that `w` writes if and only if
    the types pass the static check.
   */
  lemma UnderstandsIff(w: Dialect, r: Dialect, b: seq<bool>, ts: seq<Ty>)
    requires Writer(w) && MinEnd(w, ts) <= |b|
    ensures Understands(w, r, b, ts) <==> CompatibleTypes(w, r, ts)
  {
    if CompatibleTypes(w, r, ts) {
      forall vs | ConformAll(ts, vs) && EndOf(w, ts, vs, 0) <= |b|
        ensures var g := ReadAll(r, Write(w, b, ts, vs, 0), ts, 0); g.Some? && g.value.0 == vs
      {
        ReadOfWrite(w, r, b, ts, vs, 0, 0, Write(w, b, ts, vs, 0));
      }
    } else {
      var ls := Clash(w, r, b, TokensAll(ts), 0, 0);
      var vs := ValuesOfLeaves(ts, ls);
      ReadAllIsGet(r, Write(w, b, ts, vs, 0), ts, 0);
    }
  }

  // ---------------------------------------------------------------- Writers that check

  /** Writing one value into a buffer: `None` when it is out of range or does not fit. */
  function EmitOne(d: Dialect, b: seq<bool>, t: Ty, v: Val, p: nat): (r: Option<(seq<bool>, nat)>)
    requires Writer(d)
    ensures r.Some? ==> |r.value.0| == |b| && p <= r.value.1 <= |b|
  {
    if Conforms(t, v) && End(d, Tokens(t), Leaves(t, v), p) <= |b|
    then Some((Put(d, b, Tokens(t), Leaves(t, v), p), End(d, Tokens(t), Leaves(t, v), p)))
    else None
  }

  function EmitAll(d: Dialect, b: seq<bool>, ts: seq<Ty>, vs: seq<Val>, p: nat): (r: Option<(seq<bool>, nat)>)
    requires Writer(d)
    ensures r.Some? ==> |r.value.0| == |b| && p <= r.value.1 <= |b|
  {
    if ConformAll(ts, vs) && EndOf(d, ts, vs, p) <= |b|
    then Some((Write(d, b, ts, vs, p), EndOf(d, ts, vs, p)))
    else None
  }

  lemma NothingEmitted(d: Dialect, b: seq<bool>, p: nat)
    requires Writer(d) && p <= |b|
    ensures EmitAll(d, b, [], [], p) == Some((b, p))
  {
  }

  /** Writing several values is writing the first one and then the rest. */
  lemma EmitCons(d: Dialect, b: seq<bool>, ts: seq<Ty>, vs: seq<Val>, p: nat)
    requires Writer(d) && ts != [] && |vs| == |ts|
    ensures EmitAll(d, b, ts, vs, p) ==
            match EmitOne(d, b, ts[0], vs[0], p)
            case None => None
            case Some((b', e)) => EmitAll(d, b', ts[1..], vs[1..], e)
  {
    if ConformAll(ts, vs) {
      var tk, tl := Tokens(ts[0]), TokensAll(ts[1..]);
      var lk, ll := Leaves(ts[0], vs[0]), LeavesAll(ts[1..], vs[1..]);
      EndAppend(d, tk, tl, lk, ll, p);
      if EndOf(d, ts, vs, p) <= |b| {
        PutAppend(d, b, tk, tl, lk, ll, p);
      }
    }
  }

  lemma BracketEnd(d: Dialect, ts: seq<Token>, ls: seq<Leaf>, p: nat)
    requires Typed(ts, ls)
    ensures Typed([Open] + ts + [Close], ls)
    ensures End(d, [Open] + ts + [Close], ls, p) == Next(d, Close, End(d, ts, ls, Next(d, Open, p, 0)), 0)
  {
    hide Next, Typed, End;
    var q := Next(d, Open, p, 0);
    CloseEnd(d, End(d, ts, ls, q));
    TypedAppend(ts, [Close], ls, []);
    EndAppend(d, ts, [Close], ls, [], q);
    assert ls + [] == ls && [Open] + ts + [Close] == [Open] + (ts + [Close]);
    OpenEnd(d, ts + [Close], ls, p);
  }

  lemma CloseEnd(d: Dialect, p: nat)
    ensures Typed([Close], []) && End(d, [Close], [], p) == Next(d, Close, p, 0)
  {
    hide Next;
    assert [Close][1..] == [];
  }

  lemma OpenEnd(d: Dialect, ts: seq<Token>, ls: seq<Leaf>, p: nat)
    requires Typed(ts, ls)
    ensures Typed([Open] + ts, ls) && End(d, [Open] + ts, ls, p) == End(d, ts, ls, Next(d, Open, p, 0))
  {
    hide Next;
    assert ([Open] + ts)[1..] == ts;
  }

  lemma PutClose(d: Dialect, b: seq<bool>, p: nat)
    requires Writer(d) && Next(d, Close, p, 0) <= |b|
    ensures End(d, [Close], [], p) == Next(d, Close, p, 0) && Put(d, b, [Close], [], p) == b
  {
    assert [Close][1..] == [];
    assert Splice(b, p, []) == b;
  }

  lemma PutOpen(d: Dialect, b: seq<bool>, ts: seq<Token>, ls: seq<Leaf>, p: nat)
    requires Writer(d) && Typed(ts, ls) && End(d, ts, ls, Next(d, Open, p, 0)) <= |b|
    ensures Typed([Open] + ts, ls) && End(d, [Open] + ts, ls, p) == End(d, ts, ls, Next(d, Open, p, 0))
    ensures Put(d, b, [Open] + ts, ls, p) == Put(d, b, ts, ls, Next(d, Open, p, 0))
  {
    assert ([Open] + ts)[1..] == ts;
    assert Splice(b, p, []) == b;
  }

  lemma BracketPut(d: Dialect, b: seq<bool>, ts: seq<Token>, ls: seq<Leaf>, p: nat)
    requires Writer(d) && Typed(ts, ls)
    requires Next(d, Close, End(d, ts, ls, Next(d, Open, p, 0)), 0) <= |b|
    ensures Typed([Open] + ts + [Close], ls) && End(d, [Open] + ts + [Close], ls, p) <= |b|
    ensures Put(d, b, [Open] + ts + [Close], ls, p) == Put(d, b, ts, ls, Next(d, Open, p, 0))
  {
    var q := Next(d, Open, p, 0);
    var e := End(d, ts, ls, q);
    assert ls + [] == ls;
    PutClose(d, Put(d, b, ts, ls, q), e);
    PutAppend(d, b, ts, [Close], ls, [], q);
    assert [Open] + ts + [Close] == [Open] + (ts + [Close]);
    PutOpen(d, b, ts + [Close], ls, p);
  }

  /** Writing a struct is writing its members between two alignment steps. */
  lemma EmitStruct(d: Dialect, b: seq<bool>, ms: seq<Ty>, vs: seq<Val>, p: nat)
    requires Writer(d) && |b| % 8 == 0
    ensures EmitOne(d, b, TStruct(ms), VStruct(vs), p) ==
            match EmitAll(d, b, ms, vs, Next(d, Open, p, 0))
            case None => None
            case Some((b', e)) => Some((b', Next(d, Close, e, 0)))
  {
    hide Put, End, Typed;
    if ConformAll(ms, vs) {
      var tk, ls := TokensAll(ms), LeavesAll(ms, vs);
      BracketEnd(d, tk, ls, p);
      var e := End(d, tk, ls, Next(d, Open, p, 0));
      if Next(d, Close, e, 0) <= |b| {
        BracketPut(d, b, tk, ls, p);
      }
    }
  }

  lemma SingleToken(d: Dialect, b: seq<bool>, t: Token, l: Leaf, p: nat)
    requires Writer(d) && Takes(t) && Fits(t, l)
    ensures Typed([t], [l]) && End(d, [t], [l], p) == Start(t, p) + |Field(t, l)|
    ensures Start(t, p) + |Field(t, l)| <= |b| ==> Put(d, b, [t], [l], p) == Splice(b, Start(t, p), Field(t, l))
  {
    assert [t][1..] == [] && [l][1..] == [];
    assert Image([t], [l]) == Field(t, l);
  }

  // ---------------------------------------------------------------- Which pairs are compatible

  /** A writer and a reader that keep the same positions understand each other on every type. */
  lemma {:induction false} SelfCompatible(d: Dialect, ts: seq<Token>, p: nat)
    ensures Compatible(d, d, ts, p, p)
    decreases |ts|
  {
    if ts != [] {
      SelfCompatible(d, ts[1..], Phase(d, ts[0], p));
    }
  }

  /** Between two tokens that are not bit fields, bit fields add up to whole bytes. */
  predicate WholeByteRuns(ts: seq<Token>, p: nat) {
    ts != [] ==>
      if ts[0].Bits? then WholeByteRuns(ts[1..], (p + ts[0].n) % 8)
      else p == 0 && WholeByteRuns(ts[1..], 0)
  }

  /** On such types all implementations understand each other. */
  lemma {:induction false} WholeByteRunsAreCompatible(w: Dialect, r: Dialect, ts: seq<Token>, p: nat)
    requires WholeByteRuns(ts, p)
    ensures Compatible(w, r, ts, p, p)
    decreases |ts|
  {
    if ts != [] {
      WholeByteRunsAreCompatible(w, r, ts[1..], if ts[0].Bits? then (p + ts[0].n) % 8 else 0);
    }
  }

  /** `{BitU[4], U8, BitU[4]}` */
  const SPLIT_RUN := TStruct([TBit(4), TNum(U8), TBit(4)])

  lemma SplitRunTokens()
    ensures TokensAll([SPLIT_RUN]) == [Open, Bits(4), Prim(1), Bits(4), Close]
  {
    var ms := SPLIT_RUN.members;
    assert ms[1..] == [TNum(U8), TBit(4)] && ms[1..][1..] == [TBit(4)];
    assert TokensAll(ms) == [Bits(4), Prim(1), Bits(4)];
  }

  lemma SplitRunPhases(r: Dialect)
    ensures CompatibleTypes(PYTHON_PACK, r, [SPLIT_RUN]) <==> r.realignPrim
    ensures CompatibleTypes(EMITTED_C, r, [SPLIT_RUN]) <==> r.realignPrim
  {
    SplitRunTokens();
    var tk := [Open, Bits(4), Prim(1), Bits(4), Close];
    assert tk[1..] == [Bits(4), Prim(1), Bits(4), Close];
    assert tk[1..][1..] == [Prim(1), Bits(4), Close];
    assert tk[1..][1..][1..] == [Bits(4), Close];
    assert tk[1..][1..][1..][1..] == [Close];
  }

  /** What a token takes at most in an all-zero message, padding included. */
  function Room(ts: seq<Token>): nat {
    if ts == [] then 0
    else
      (match ts[0]
       case Bits(n) => n
       case Prim(w) => 8 * w + 7
       case List(_, _) => 23
       case _ => 7) + Room(ts[1..])
  }

  lemma {:induction false} ZerosTakeAtMost(w: Dialect, ts: seq<Token>, p: nat)
    ensures End(w, ts, Zeros(ts), p) <= p + Room(ts)
    decreases |ts|
  {
    if ts != [] {
      var zs := Zeros(ts);
      assert Rest(ts[0], zs) == Zeros(ts[1..]);
      ZerosTakeAtMost(w, ts[1..], Next(w, ts[0], p, |Image(ts, zs)|));
    }
  }

  lemma SplitRunSize(w: Dialect)
    ensures MinEnd(w, [SPLIT_RUN]) <= 40
  {
    SplitRunTokens();
    var tk := [Open, Bits(4), Prim(1), Bits(4), Close];
    assert tk[1..] == [Bits(4), Prim(1), Bits(4), Close];
    assert tk[1..][1..] == [Prim(1), Bits(4), Close];
    assert tk[1..][1..][1..] == [Bits(4), Close];
    assert tk[1..][1..][1..][1..] == [Close];
    ZerosTakeAtMost(w, tk, 0);
  }

  /** Python does not get back every value it packs itself; the emitted C does. */
  lemma PythonMisreadsItself(b: seq<bool>)
    requires |b| >= 40
    ensures !Understands(PYTHON_PACK, PYTHON_UNPACK, b, [SPLIT_RUN])
    ensures !Understands(EMITTED_C, PYTHON_UNPACK, b, [SPLIT_RUN])
    ensures Understands(PYTHON_PACK, EMITTED_C, b, [SPLIT_RUN])
    ensures Understands(EMITTED_C, EMITTED_C, b, [SPLIT_RUN])
  {
    forall w, r | w in {PYTHON_PACK, EMITTED_C} && r in {PYTHON_UNPACK, EMITTED_C}
      ensures Understands(w, r, b, [SPLIT_RUN]) <==> r.realignPrim
    {
      SplitRunSize(w);
      SplitRunPhases(r);
      UnderstandsIff(w, r, b, [SPLIT_RUN]);
    }
  }
}
