/**
  The static layout that the `struct` decorator computes, and what it says about
  the places where the emitted `T_store` puts list data.
 */
module Layout {
  import opened BitString
  import opened Wire
  import opened Types

  /** Continues the last entry of `x` with the first entry of `y`. */
  function Join(x: seq<nat>, y: seq<nat>): (r: seq<nat>)
    requires x != [] && y != []
    ensures |r| == |x| + |y| - 1
  {
    x[..|x| - 1] + [x[|x| - 1] + y[0]] + y[1..]
  }

  lemma JoinAssociative(x: seq<nat>, y: seq<nat>, z: seq<nat>)
    requires x != [] && y != [] && z != []
    ensures Join(Join(x, y), z) == Join(x, Join(y, z))
  {
    var l, r := Join(Join(x, y), z), Join(x, Join(y, z));
    assert |l| == |r|;
    forall i | 0 <= i < |l| ensures l[i] == r[i] {
    }
  }

  /** Bits before the first list and between lists, in declaration order. */
  function MemberLayout(t: Ty): (r: seq<nat>)
    ensures r != []
    decreases t, 1
  {
    match t
    case TNum(k) => [8 * Width(k)]
    case TBit(n) => [n]
    case TList(_) => [16, 0]
    case TBlob => [16, 0]
    case TStruct(ms) => LayoutFrom([0], ms)
  }

  function LayoutFrom(layout: seq<nat>, ms: seq<Ty>): (r: seq<nat>)
    requires layout != []
    ensures |r| >= |layout|
    decreases ms, 0
  {
    if ms == [] then layout else LayoutFrom(Join(layout, MemberLayout(ms[0])), ms[1..])
  }

  function Sum(xs: seq<nat>): nat {
    if xs == [] then 0 else xs[0] + Sum(xs[1..])
  }

  /** The members below `n` that hold a list, in order. */
  ghost predicate DynamicMembers(dynamic: seq<nat>, ms: seq<Ty>, n: nat)
    requires n <= |ms|
  {
    && (forall a, b :: 0 <= a < b < |dynamic| ==> dynamic[a] < dynamic[b])
    && (forall i :: i in dynamic <==> 0 <= i < n && |MemberLayout(ms[i])| > 1)
  }

  /** The `struct` decorator: layout, size and indices of dynamic members. */
  method Decorate(ms: seq<Ty>) returns (layout: seq<nat>, size: nat, dynamic: seq<nat>)
    ensures layout == LayoutFrom([0], ms) && size == Sum(layout)
    ensures DynamicMembers(dynamic, ms, |ms|)
    ensures dynamic != [] <==> |layout| > 1
    decreases ms, 0
  {
    hide LayoutFrom, MemberLayout;
    layout, dynamic := [0], [];
    var i := 0;
    assert ms[0..] == ms;
    while i < |ms|
      invariant 0 <= i <= |ms| && layout != []
      invariant LayoutFrom(layout, ms[i..]) == LayoutFrom([0], ms)
      invariant DynamicMembers(dynamic, ms, i) && (dynamic != [] <==> |layout| > 1)
    {
      var last := |layout| - 1;
      var l, s, d := MemberAttributes(ms[i]);
      LayoutStep(layout, ms, i, l);
      ghost var joined, was := Join(layout, l), dynamic;
      if ms[i].TStruct? && d != [] {
        dynamic := dynamic + [i];
        layout := layout[last := layout[last] + l[0]] + l[1..];
      } else if ms[i].TList? || ms[i].TBlob? {
        dynamic := dynamic + [i];
        layout := layout[last := layout[last] + 16] + [0];
      } else {
        layout := layout[last := layout[last] + s];
      }
      assert layout == joined;
      assert dynamic == if |l| > 1 then was + [i] else was;
      OneMoreMember(was, ms, i);
      i := i + 1;
    }
    LayoutEnd(layout, ms);
    size := Total(layout);
  }

  lemma LayoutStep(layout: seq<nat>, ms: seq<Ty>, i: nat, l: seq<nat>)
    requires layout != [] && i < |ms| && l == MemberLayout(ms[i])
    ensures LayoutFrom(layout, ms[i..]) == LayoutFrom(Join(layout, l), ms[i + 1..])
    ensures ms[i].TList? || ms[i].TBlob? ==> l == [16, 0]
    ensures |l| == 1 ==> l == [Sum(l)]
    ensures ms[i].TNum? || ms[i].TBit? ==> |l| == 1
  {
    assert ms[i..][1..] == ms[i + 1..];
    if |l| == 1 {
      assert l[1..] == [];
    }
  }

  lemma OneMoreMember(dynamic: seq<nat>, ms: seq<Ty>, n: nat)
    requires n < |ms| && DynamicMembers(dynamic, ms, n)
    ensures DynamicMembers(if |MemberLayout(ms[n])| > 1 then dynamic + [n] else dynamic, ms, n + 1)
  {
    forall a | 0 <= a < |dynamic| ensures dynamic[a] < n {
      assert dynamic[a] in dynamic;
    }
  }

  lemma LayoutEnd(layout: seq<nat>, ms: seq<Ty>)
    requires layout != []
    ensures LayoutFrom(layout, ms[|ms|..]) == layout
  {
  }

  method Total(layout: seq<nat>) returns (size: nat)
    ensures size == Sum(layout)
  {
    size := 0;
    for j := 0 to |layout|
      invariant size + Sum(layout[j..]) == Sum(layout)
    {
      assert layout[j..][1..] == layout[j + 1..];
      size := size + layout[j];
    }
  }

  /** The class attributes of a member's type. */
  method MemberAttributes(t: Ty) returns (layout: seq<nat>, size: nat, dynamic: seq<nat>)
    ensures layout == MemberLayout(t) && size == Sum(layout)
    ensures t.TStruct? ==> (dynamic != [] <==> |layout| > 1)
    decreases t, 1
  {
    match t {
      case TNum(k) => layout, size, dynamic := [8 * Width(k)], 8 * Width(k), [];
      case TBit(n) => layout, size, dynamic := [n], n, [];
      case TList(_) => layout, size, dynamic := [16, 0], 16, [];
      case TBlob => layout, size, dynamic := [16, 0], 16, [];
      case TStruct(ms) => layout, size, dynamic := Decorate(ms);
    }
  }

  // ---------------------------------------------------------------- On tokens

  /** Adds `n` bits to the first entry. */
  function Add(n: nat, l: seq<nat>): (r: seq<nat>)
    requires l != []
    ensures |r| == |l| && r[0] == n + l[0] && r[1..] == l[1..]
  {
    [n + l[0]] + l[1..]
  }

  /** The same layout, read off the flattened type. */
  function TokenLayout(ts: seq<Token>): (r: seq<nat>)
    ensures r != []
  {
    if ts == [] then [0]
    else
      var r := TokenLayout(ts[1..]);
      match ts[0]
      case Bits(n) => Add(n, r)
      case Prim(w) => Add(8 * w, r)
      case List(_, _) => [16] + r
      case _ => r
  }

  lemma JoinLaws(n: nat, x: seq<nat>, y: seq<nat>)
    requires x != [] && y != []
    ensures Join(Add(n, x), y) == Add(n, Join(x, y))
    ensures Join([n] + x, y) == [n] + Join(x, y)
    ensures Join([0], x) == x && Join(x, [0]) == x
  {
    HeadOfJoin(n, x, y);
  }

  lemma HeadOfJoin(n: nat, x: seq<nat>, y: seq<nat>)
    requires x != [] && y != []
    ensures Join([n + x[0]] + x[1..], y) == [n + Join(x, y)[0]] + Join(x, y)[1..]
  {
    var x', j := [n + x[0]] + x[1..], Join(x, y);
    var l, r := Join(x', y), [n + j[0]] + j[1..];
    assert |x'| == |x| && |l| == |r| == |j|;
    forall i | 0 <= i < |l| ensures l[i] == r[i] {
      if i < |x| - 1 {
        assert l[i] == x'[i];
      } else if i == |x| - 1 {
        assert l[i] == x'[i] + y[0] && j[i] == x[i] + y[0];
      } else {
        assert l[i] == y[i - |x| + 1] == j[i];
      }
    }
  }

  lemma {:induction false} TokenLayoutAppend(ts: seq<Token>, us: seq<Token>)
    ensures TokenLayout(ts + us) == Join(TokenLayout(ts), TokenLayout(us))
    decreases |ts|
  {
    hide Join, Add;
    if ts == [] {
      assert ts + us == us;
      JoinLaws(0, TokenLayout(us), [0]);
    } else {
      TokenLayoutAppend(ts[1..], us);
      assert (ts + us)[1..] == ts[1..] + us;
      var n := match ts[0] case Bits(n) => n case Prim(w) => 8 * w case _ => 16;
      JoinLaws(n, TokenLayout(ts[1..]), TokenLayout(us));
    }
  }

  lemma OneToken(t: Token)
    ensures TokenLayout([t]) ==
            match t case Bits(n) => [n] case Prim(w) => [8 * w] case List(_, _) => [16, 0] case _ => [0]
  {
    assert [t][1..] == [];
  }

  /** Nesting does not matter: the decorator's layout is that of the flattened type. */
  lemma {:induction false} MemberLayoutOfTokens(t: Ty)
    ensures MemberLayout(t) == TokenLayout(Tokens(t))
    decreases t, 1
  {
    hide Join, Add, TokenLayout;
    match t
    case TStruct(ms) =>
      LayoutFromTokens([0], ms);
      var tk := TokensAll(ms);
      JoinLaws(0, TokenLayout(tk), [0]);
      TokenLayoutAppend([Open], tk);
      TokenLayoutAppend([Open] + tk, [Close]);
      OneToken(Open);
      OneToken(Close);
    case TNum(k) => OneToken(Prim(Width(k)));
    case TBit(n) => OneToken(Bits(n));
    case TList(k) => OneToken(List(Width(k), false));
    case TBlob => OneToken(List(1, true));
  }

  lemma {:induction false} LayoutFromTokens(layout: seq<nat>, ms: seq<Ty>)
    requires layout != []
    ensures LayoutFrom(layout, ms) == Join(layout, TokenLayout(TokensAll(ms)))
    decreases ms, 0
  {
    if ms == [] {
      assert Join(layout, [0]) == layout;
    } else {
      MemberLayoutOfTokens(ms[0]);
      LayoutFromTokens(Join(layout, MemberLayout(ms[0])), ms[1..]);
      TokenLayoutAppend(Tokens(ms[0]), TokensAll(ms[1..]));
      JoinAssociative(layout, MemberLayout(ms[0]), TokenLayout(TokensAll(ms[1..])));
    }
  }

  /** Number of lists among the tokens. */
  function Lists(ts: seq<Token>): nat {
    if ts == [] then 0 else (if ts[0].List? then 1 else 0) + Lists(ts[1..])
  }

  /** One suffix per list: the allocator's limit is the number of lists. */
  lemma {:induction false} OneEntryPerList(ts: seq<Token>)
    ensures |TokenLayout(ts)| == Lists(ts) + 1
    decreases |ts|
  {
    if ts != [] {
      OneEntryPerList(ts[1..]);
    }
  }

  // ---------------------------------------------------------------- The encoder's layout

  /** Bits that the emitted code really uses before the first list and between lists. */
  function EncodedLayout(ts: seq<Token>, cur: nat): (r: seq<nat>)
    ensures r != []
    decreases |ts|
  {
    if ts == [] then [cur]
    else
      match ts[0]
      case Bits(n) => EncodedLayout(ts[1..], cur + n)
      case Prim(w) => EncodedLayout(ts[1..], Align(cur) + 8 * w)
      case List(_, _) => [Align(cur) + 16] + EncodedLayout(ts[1..], 0)
      case _ => EncodedLayout(ts[1..], Align(cur))
  }

  lemma {:induction false} EncodedCount(ts: seq<Token>, cur: nat)
    ensures |EncodedLayout(ts, cur)| == Lists(ts) + 1 == |TokenLayout(ts)|
    decreases |ts|
  {
    hide Align;
    OneEntryPerList(ts);
    if ts != [] {
      match ts[0]
      case Bits(n) => EncodedCount(ts[1..], cur + n);
      case Prim(w) => EncodedCount(ts[1..], Align(cur) + 8 * w);
      case List(_, _) => EncodedCount(ts[1..], 0);
      case _ => EncodedCount(ts[1..], Align(cur));
    }
  }

  /** Padding only ever adds; up to a list the encoder fills whole bytes. */
  lemma {:induction false} EncodedAtLeast(ts: seq<Token>, cur: nat, i: nat)
    requires i < |EncodedLayout(ts, cur)| == |TokenLayout(ts)| == Lists(ts) + 1
    ensures EncodedLayout(ts, cur)[i] >= TokenLayout(ts)[i] + (if i == 0 then cur else 0)
    ensures i < Lists(ts) ==> EncodedLayout(ts, cur)[i] % 8 == 0
    decreases |ts|
  {
    hide Align, Add, EncodedLayout, TokenLayout;
    if ts == [] {
      NoEntries(cur);
    } else {
      LayoutHead(ts, cur);
      EncodedCount(ts[1..], 0);
      if ts[0].List? {
        if i > 0 {
          EncodedAtLeast(ts[1..], 0, i - 1);
        }
      } else {
        EncodedCount(ts[1..], Onward(ts[0], cur));
        EncodedAtLeast(ts[1..], Onward(ts[0], cur), i);
        if i > 0 {
          var r, l := TokenLayout(ts[1..]), TokenLayout(ts);
          assert l[i] == l[1..][i - 1] == r[1..][i - 1] == r[i];
        }
      }
    }
  }

  lemma NoEntries(cur: nat)
    ensures EncodedLayout([], cur) == [cur] && TokenLayout([]) == [0]
  {
  }

  /** Both layouts, one token at a time. */
  lemma LayoutHead(ts: seq<Token>, cur: nat)
    requires ts != []
    ensures ts[0].List? ==>
              && EncodedLayout(ts, cur) == [Align(cur) + 16] + EncodedLayout(ts[1..], 0)
              && TokenLayout(ts) == [16] + TokenLayout(ts[1..])
    ensures !ts[0].List? ==>
              && EncodedLayout(ts, cur) == EncodedLayout(ts[1..], Onward(ts[0], cur))
              && TokenLayout(ts)[1..] == TokenLayout(ts[1..])[1..]
              && TokenLayout(ts)[0] + cur <= TokenLayout(ts[1..])[0] + Onward(ts[0], cur)
  {
    hide Align;
  }

  /** Where the emitted store puts the data of each list, as bit positions; `ns` are the lists' byte lengths. */
  function DataStarts(ts: seq<Token>, ns: seq<nat>, p: nat): (r: seq<nat>)
    requires |ns| == Lists(ts)
    ensures |r| == |ns|
    decreases |ts|
  {
    if ts == [] then []
    else
      match ts[0]
      case Bits(n) => DataStarts(ts[1..], ns, p + n)
      case Prim(w) => DataStarts(ts[1..], ns, Align(p) + 8 * w)
      case List(_, _) => [Align(p) + 16] + DataStarts(ts[1..], ns[1..], Align(p) + 16 + 8 * ns[0])
      case _ => DataStarts(ts[1..], ns, Align(p))
  }

  /** Addresses of blocks of `ns` bytes with `gaps[i]` bytes before block `i`. */
  function Spread(base: nat, gaps: seq<nat>, ns: seq<nat>): (r: seq<nat>)
    requires |gaps| >= |ns|
    ensures |r| == |ns|
    decreases |ns|
  {
    if ns == [] then [] else [base + gaps[0]] + Spread(base + gaps[0] + ns[0], gaps[1..], ns[1..])
  }

  function InBytes(bits: seq<nat>): (r: seq<nat>)
    ensures |r| == |bits|
    ensures forall i :: 0 <= i < |bits| ==> r[i] == Align(bits[i]) / 8
  {
    seq(|bits|, i requires 0 <= i < |bits| => Align(bits[i]) / 8)
  }

  /** Position in the current segment after a token that is not a list. */
  function Onward(t: Token, cur: nat): nat {
    match t
    case Bits(n) => cur + n
    case Prim(w) => Align(cur) + 8 * w
    case _ => Align(cur)
  }

  lemma StepStarts(ts: seq<Token>, ns: seq<nat>, q: nat, cur: nat)
    requires ts != [] && |ns| == Lists(ts) && !ts[0].List?
    ensures EncodedLayout(ts, cur) == EncodedLayout(ts[1..], Onward(ts[0], cur))
    ensures DataStarts(ts, ns, 8 * q + cur) == DataStarts(ts[1..], ns, 8 * q + Onward(ts[0], cur))
  {
    AlignAdd(cur, 8 * q);
  }

  lemma ListStarts(ts: seq<Token>, ns: seq<nat>, q: nat, cur: nat)
    requires ts != [] && |ns| == Lists(ts) && ts[0].List?
    ensures var g := Align(cur) + 16;
            && EncodedLayout(ts, cur) == [g] + EncodedLayout(ts[1..], 0)
            && DataStarts(ts, ns, 8 * q + cur) ==
               [8 * (q + g / 8)] + DataStarts(ts[1..], ns[1..], 8 * (q + g / 8 + ns[0]) + 0)
  {
    AlignAdd(cur, 8 * q);
  }

  /** The encoder spreads list data by its own layout. */
  lemma {:induction false} DataStartsSpread(ts: seq<Token>, ns: seq<nat>, q: nat, cur: nat, i: nat)
    requires |ns| == Lists(ts) && i < |ns|
    requires |EncodedLayout(ts, cur)| == |ns| + 1
    ensures DataStarts(ts, ns, 8 * q + cur)[i] == 8 * Spread(q, InBytes(EncodedLayout(ts, cur)), ns)[i]
    decreases |ts|
  {
    hide Align, InBytes, DataStarts, EncodedLayout, Spread, Onward;
    if ts[0].List? {
      var g := Align(cur) + 16;
      ListStarts(ts, ns, q, cur);
      InBytesCons(g, EncodedLayout(ts[1..], 0));
      SpreadCons(q, g / 8, InBytes(EncodedLayout(ts[1..], 0)), ns);
      if i > 0 {
        DataStartsSpread(ts[1..], ns[1..], q + g / 8 + ns[0], 0, i - 1);
      }
    } else {
      StepStarts(ts, ns, q, cur);
      DataStartsSpread(ts[1..], ns, q, Onward(ts[0], cur), i);
    }
  }

  lemma InBytesCons(g: nat, e: seq<nat>)
    requires g % 8 == 0
    ensures InBytes([g] + e) == [g / 8] + InBytes(e)
  {
  }

  lemma SpreadCons(q: nat, g: nat, gaps: seq<nat>, ns: seq<nat>)
    requires ns != [] && |gaps| + 1 >= |ns|
    ensures Spread(q, [g] + gaps, ns) == [q + g] + Spread(q + g + ns[0], gaps, ns[1..])
  {
    assert ([g] + gaps)[1..] == gaps;
  }
}
