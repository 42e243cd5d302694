/**
  Zero-copy placement: the allocator that `T_alloc_init` sets up, the layout it
  takes its gaps from, and the places where `T_store` wants the lists.
 */
module ZeroCopy {
  import opened BitString
  import opened Results
  import opened Wire
  import opened Types
  import opened Layout
  import opened CRuntime
  import opened CHelpers
  import opened Allocator

  // ---------------------------------------------------------------- When the layout is exact

  /** Before every list, alignment inserts less than one byte in all since the previous list. */
  predicate Tight(ts: seq<Token>) {
    EncodedCount(ts, 0);
    forall i :: 0 <= i < Lists(ts) ==> EncodedLayout(ts, 0)[i] < TokenLayout(ts)[i] + 8
  }

  lemma GapIff(ts: seq<Token>, i: nat)
    requires i < Lists(ts)
    ensures |EncodedLayout(ts, 0)| == |TokenLayout(ts)| == Lists(ts) + 1
    ensures InBytes(TokenLayout(ts))[i] <= InBytes(EncodedLayout(ts, 0))[i]
    ensures InBytes(TokenLayout(ts))[i] == InBytes(EncodedLayout(ts, 0))[i] <==>
            EncodedLayout(ts, 0)[i] < TokenLayout(ts)[i] + 8
  {
    EncodedCount(ts, 0);
    EncodedAtLeast(ts, 0, i);
  }

  lemma {:induction false} SpreadEqual(q: nat, g: seq<nat>, h: seq<nat>, ns: seq<nat>)
    requires |g| >= |ns| && |h| >= |ns|
    requires forall i :: 0 <= i < |ns| ==> g[i] == h[i]
    ensures Spread(q, g, ns) == Spread(q, h, ns)
    decreases |ns|
  {
    if ns != [] {
      SpreadEqual(q + g[0] + ns[0], g[1..], h[1..], ns[1..]);
    }
  }

  lemma {:induction false} SpreadDiffers(q: nat, g: seq<nat>, h: seq<nat>, ns: seq<nat>, i: nat)
    requires |g| >= |ns| && |h| >= |ns| && i < |ns|
    requires Spread(q, g, ns) == Spread(q, h, ns)
    ensures g[i] == h[i]
    decreases |ns|
  {
    var x, y := Spread(q, g, ns), Spread(q, h, ns);
    assert x[0] == y[0];
    if i > 0 {
      assert x[1..] == y[1..];
      SpreadDiffers(q + g[0] + ns[0], g[1..], h[1..], ns[1..], i - 1);
    }
  }

  function Zeroes(n: nat): (r: seq<nat>)
    ensures |r| == n
  {
    seq(n, _ => 0)
  }

  /** Every list lands exactly where the store puts it, whatever the lists' lengths. */
  ghost predicate PlacesExactly(ts: seq<Token>, q: nat) {
    OneEntryPerList(ts);
    forall ns, i :: |ns| == Lists(ts) && 0 <= i < |ns| ==>
      8 * Spread(q, InBytes(TokenLayout(ts)), ns)[i] == DataStarts(ts, ns, 8 * q)[i]
  }

  /**
    The exact condition for zero copy: allocating by the decorator's layout from
    byte `q` on gives every list its final place, for all lengths, if and only if
    the type is tight.
   */
  lemma PlacesExactlyIff(ts: seq<Token>, q: nat)
    ensures PlacesExactly(ts, q) <==> Tight(ts)
  {
    hide Spread, InBytes, DataStarts, EncodedLayout, TokenLayout;
    OneEntryPerList(ts);
    EncodedCount(ts, 0);
    var l, e := InBytes(TokenLayout(ts)), InBytes(EncodedLayout(ts, 0));
    if Tight(ts) {
      forall ns, i | |ns| == Lists(ts) && 0 <= i < |ns|
        ensures 8 * Spread(q, l, ns)[i] == DataStarts(ts, ns, 8 * q)[i]
      {
        DataStartsSpread(ts, ns, q, 0, i);
        forall j | 0 <= j < |ns| ensures l[j] == e[j] {
          GapIff(ts, j);
        }
        SpreadEqual(q, l, e, ns);
      }
    }
    if PlacesExactly(ts, q) {
      var ns := Zeroes(Lists(ts));
      forall i | 0 <= i < |ns| ensures Spread(q, l, ns)[i] == Spread(q, e, ns)[i] {
        DataStartsSpread(ts, ns, q, 0, i);
      }
      assert Spread(q, l, ns) == Spread(q, e, ns);
      forall i | 0 <= i < Lists(ts) ensures EncodedLayout(ts, 0)[i] < TokenLayout(ts)[i] + 8 {
        SpreadDiffers(q, l, e, ns, i);
        GapIff(ts, i);
      }
    }
  }

  /** `{BitU[4], U8, BitU[4], list}` is not tight: its list is allocated one byte too early. */
  lemma NotTight(w: width)
    ensures !Tight([Bits(4), Prim(1), Bits(4), List(w, false)])
  {
    var d := [List(w, false)];
    var c := [Bits(4)] + d;
    var b := [Prim(1)] + c;
    var ts := [Bits(4)] + b;
    assert ts == [Bits(4), Prim(1), Bits(4), List(w, false)];
    assert d[1..] == [] && c[1..] == d && b[1..] == c && ts[1..] == b;
    assert Lists(d) == 1;
    assert Lists(c) == 1;
    assert Lists(b) == 1;
    assert Lists(ts) == 1;
    assert TokenLayout(d) == [16, 0];
    assert TokenLayout(c)[0] == 20 && TokenLayout(b)[0] == 28 && TokenLayout(ts)[0] == 32;
    assert EncodedLayout(d, 20)[0] == 40;
    assert EncodedLayout(c, 16) == EncodedLayout(d, 20);
    assert EncodedLayout(b, 4) == EncodedLayout(c, 16);
    assert EncodedLayout(ts, 0) == EncodedLayout(b, 4);
    EncodedCount(ts, 0);
  }

  // ---------------------------------------------------------------- Slices of a C value

  /** The slices of a C value in declaration order. */
  function Slices(t: Ty, c: CVal): seq<CVal>
    decreases t, 1
  {
    match t
    case TList(_) => [c]
    case TBlob => [c]
    case TStruct(ms) => if c.CStruct? then SlicesAll(ms, c.fields) else []
    case _ => []
  }

  function SlicesAll(ts: seq<Ty>, cs: seq<CVal>): seq<CVal>
    decreases ts, 0
  {
    if ts == [] || cs == [] then [] else Slices(ts[0], cs[0]) + SlicesAll(ts[1..], cs[1..])
  }

  /** Their lengths in bytes. */
  function Lengths(t: Ty, c: CVal): seq<nat>
    decreases t, 1
  {
    match t
    case TList(k) => [if c.CSlice? then Span(k, c.len) else 0]
    case TBlob => [if c.CSlice? then Span(U8, c.len) else 0]
    case TStruct(ms) => if c.CStruct? then LengthsAll(ms, c.fields) else []
    case _ => []
  }

  function LengthsAll(ts: seq<Ty>, cs: seq<CVal>): seq<nat>
    decreases ts, 0
  {
    if ts == [] || cs == [] then [] else Lengths(ts[0], cs[0]) + LengthsAll(ts[1..], cs[1..])
  }

  /** Every slice that holds something lies behind the place where its length, two bytes before its data, begins. */
  ghost predicate Behind(ss: seq<CVal>, ns: seq<nat>, starts: seq<nat>) {
    && |ss| == |ns| == |starts|
    && forall i :: 0 <= i < |ss| ==> ss[i].CSlice? && (ns[i] > 0 ==> starts[i] < 8 * ss[i].ptr + 16)
  }

  /** Position after the tokens when the lists have `ns` bytes. */
  function Finish(ts: seq<Token>, ns: seq<nat>, p: nat): nat
    requires |ns| == Lists(ts)
    decreases |ts|
  {
    if ts == [] then p
    else
      match ts[0]
      case Bits(n) => Finish(ts[1..], ns, p + n)
      case Prim(w) => Finish(ts[1..], ns, Align(p) + 8 * w)
      case List(_, _) => Finish(ts[1..], ns[1..], Align(p) + 16 + 8 * ns[0])
      case _ => Finish(ts[1..], ns, Align(p))
  }

  lemma {:induction false} ListsAppend(ts: seq<Token>, us: seq<Token>)
    ensures Lists(ts + us) == Lists(ts) + Lists(us)
    decreases |ts|
  {
    if ts == [] {
      assert ts + us == us;
    } else {
      ListsAppend(ts[1..], us);
      assert (ts + us)[1..] == ts[1..] + us;
    }
  }

  lemma {:induction false} StartsAppend(ts: seq<Token>, us: seq<Token>, ns: seq<nat>, ms: seq<nat>, p: nat)
    requires |ns| == Lists(ts) && |ms| == Lists(us)
    ensures Lists(ts + us) == |ns + ms|
    ensures DataStarts(ts + us, ns + ms, p) == DataStarts(ts, ns, p) + DataStarts(us, ms, Finish(ts, ns, p))
    ensures Finish(ts + us, ns + ms, p) == Finish(us, ms, Finish(ts, ns, p))
    decreases |ts|
  {
    hide Align, DataStarts, Finish, Onward, Lists;
    ListsAppend(ts, us);
    if ts == [] {
      assert ts + us == us && ns + ms == ms;
      NoTokens(p);
      assert [] + DataStarts(us, ms, p) == DataStarts(us, ms, p);
    } else {
      assert (ts + us)[0] == ts[0] && (ts + us)[1..] == ts[1..] + us;
      ListsAppend(ts[1..], us);
      ListsStep(ts);
      StartsStep(ts, ns, p);
      StartsStep(ts + us, ns + ms, p);
      if ts[0].List? {
        var q := Align(p) + 16;
        assert (ns + ms)[0] == ns[0] && (ns + ms)[1..] == ns[1..] + ms;
        StartsAppend(ts[1..], us, ns[1..], ms, q + 8 * ns[0]);
      } else {
        StartsAppend(ts[1..], us, ns, ms, Onward(ts[0], p));
      }
    }
  }

  lemma ListsStep(ts: seq<Token>)
    requires ts != []
    ensures Lists(ts) == (if ts[0].List? then 1 else 0) + Lists(ts[1..])
  {
  }

  lemma StartsStep(ts: seq<Token>, ns: seq<nat>, p: nat)
    requires ts != [] && |ns| == Lists(ts)
    ensures !ts[0].List? ==>
              && DataStarts(ts, ns, p) == DataStarts(ts[1..], ns, Onward(ts[0], p))
              && Finish(ts, ns, p) == Finish(ts[1..], ns, Onward(ts[0], p))
    ensures ts[0].List? ==>
              var q := Align(p) + 16;
              && DataStarts(ts, ns, p) == [q] + DataStarts(ts[1..], ns[1..], q + 8 * ns[0])
              && Finish(ts, ns, p) == Finish(ts[1..], ns[1..], q + 8 * ns[0])
  {
    hide Align;
  }

  lemma {:induction false} BracketStarts(ts: seq<Token>, ns: seq<nat>, p: nat)
    requires |ns| == Lists(ts)
    ensures Lists([Open] + ts + [Close]) == |ns|
    ensures DataStarts([Open] + ts + [Close], ns, p) == DataStarts(ts, ns, Align(p))
    ensures Finish([Open] + ts + [Close], ns, p) == Align(Finish(ts, ns, Align(p)))
  {
    hide Align;
    var q := Align(p);
    StartsAppend(ts, [Close], ns, [], q);
    assert ns + [] == ns && [Close][1..] == [];
    assert ([Open] + ts + [Close])[1..] == ts + [Close];
    assert DataStarts([Close], [], Finish(ts, ns, q)) == [];
  }

  /** On trees and on tokens, positions and slices agree. */
  lemma {:induction false} TreeIsFlat(size: nat, t: Ty, c: CVal, p: nat, base: nat)
    requires InMemory(size, t, c)
    ensures |Slices(t, c)| == |Lengths(t, c)| == Lists(Tokens(t))
    ensures After(size, t, c, p) == Finish(Tokens(t), Lengths(t, c), p)
    ensures Behind(Slices(t, c), Lengths(t, c), DataStarts(Tokens(t), Lengths(t, c), p)) ==> Clear(size, t, c, p, base)
    decreases t, 1
  {
    hide Align, Span;
    match t
    case TNum(k) => assert Tokens(t)[1..] == [];
    case TBit(n) => assert Tokens(t)[1..] == [];
    case TList(k) => OneList(t, c, p);
    case TBlob => OneList(t, c, p);
    case TStruct(ms) =>
      TreeIsFlatAll(size, ms, c.fields, Align(p), base);
      BracketStarts(TokensAll(ms), LengthsAll(ms, c.fields), p);
  }

  lemma OneList(t: Ty, c: CVal, p: nat)
    requires (t.TList? || t.TBlob?) && c.CSlice?
    ensures Lists(Tokens(t)) == 1
    ensures DataStarts(Tokens(t), Lengths(t, c), p) == [Align(p) + 16]
    ensures Finish(Tokens(t), Lengths(t, c), p) == Align(p) + 16 + 8 * Span(Element(t), c.len)
  {
    hide Align, Span;
    assert Tokens(t)[1..] == [] && Lengths(t, c)[1..] == [];
  }

  lemma {:induction false} TreeIsFlatAll(size: nat, ts: seq<Ty>, cs: seq<CVal>, p: nat, base: nat)
    requires InMemoryAll(size, ts, cs)
    ensures |SlicesAll(ts, cs)| == |LengthsAll(ts, cs)| == Lists(TokensAll(ts))
    ensures AfterAll(size, ts, cs, p) == Finish(TokensAll(ts), LengthsAll(ts, cs), p)
    ensures Behind(SlicesAll(ts, cs), LengthsAll(ts, cs), DataStarts(TokensAll(ts), LengthsAll(ts, cs), p)) ==>
              ClearAll(size, ts, cs, p, base)
    decreases ts, 0
  {
    hide DataStarts, Finish;
    if ts == [] {
      NoTokens(p);
    } else {
      var q := After(size, ts[0], cs[0], p);
      TreeIsFlat(size, ts[0], cs[0], p, base);
      TreeIsFlatAll(size, ts[1..], cs[1..], q, base);
      StartsAppend(Tokens(ts[0]), TokensAll(ts[1..]), Lengths(ts[0], cs[0]), LengthsAll(ts[1..], cs[1..]), p);
      BehindSplit(Slices(ts[0], cs[0]), SlicesAll(ts[1..], cs[1..]),
                  Lengths(ts[0], cs[0]), LengthsAll(ts[1..], cs[1..]),
                  DataStarts(Tokens(ts[0]), Lengths(ts[0], cs[0]), p),
                  DataStarts(TokensAll(ts[1..]), LengthsAll(ts[1..], cs[1..]), q));
    }
  }

  lemma NoTokens(p: nat)
    ensures DataStarts([], [], p) == [] && Finish([], [], p) == p
  {
  }

  lemma BehindSplit(s: seq<CVal>, s': seq<CVal>, n: seq<nat>, n': seq<nat>, d: seq<nat>, d': seq<nat>)
    requires |s| == |n| == |d| && |s'| == |n'| == |d'|
    ensures Behind(s + s', n + n', d + d') ==> Behind(s, n, d) && Behind(s', n', d')
  {
    if Behind(s + s', n + n', d + d') {
      forall i | 0 <= i < |s| ensures s[i].CSlice? && (n[i] > 0 ==> d[i] < 8 * s[i].ptr + 16) {
        assert (s + s')[i] == s[i] && (n + n')[i] == n[i] && (d + d')[i] == d[i];
      }
      forall i | 0 <= i < |s'| ensures s'[i].CSlice? && (n'[i] > 0 ==> d'[i] < 8 * s'[i].ptr + 16) {
        var j := |s| + i;
        assert (s + s')[j] == s'[i] && (n + n')[j] == n'[i] && (d + d')[j] == d'[i];
      }
    }
  }

  // ---------------------------------------------------------------- In-place stores do not clobber

  /** By how much gaps `g` fall short of gaps `h` up to entry `n`. */
  function Shortfall(g: seq<nat>, h: seq<nat>, n: nat): int
    requires n <= |g| && n <= |h|
  {
    if n == 0 then 0 else (h[0] - g[0]) + Shortfall(g[1..], h[1..], n - 1)
  }

  /**
    Two spreads of the same blocks are apart by the distance of their starts less the
    shortfall, whatever the blocks.
   */
  lemma {:induction false} SpreadApart(q: nat, r: nat, g: seq<nat>, h: seq<nat>, ns: seq<nat>, i: nat)
    requires |g| >= |ns| && |h| >= |ns| && i < |ns|
    ensures Spread(r, g, ns)[i] + q + Shortfall(g, h, i + 1) == Spread(q, h, ns)[i] + r
    decreases |ns|
  {
    if i > 0 {
      SpreadApart(q + h[0] + ns[0], r + g[0] + ns[0], g[1..], h[1..], ns[1..], i - 1);
    } else {
      assert Shortfall(g[1..], h[1..], 0) == 0;
    }
  }

  lemma {:induction false} ShortfallGrows(g: seq<nat>, h: seq<nat>, n: nat)
    requires n <= |g| && n <= |h| && forall j :: 0 <= j < n ==> g[j] <= h[j]
    ensures Shortfall(g, h, n) >= 0
    decreases n
  {
    if n > 0 {
      ShortfallGrows(g[1..], h[1..], n - 1);
    }
  }

  lemma {:induction false} ShortfallPrefix(g: seq<nat>, h: seq<nat>, m: nat, n: nat)
    requires m <= n <= |g| && n <= |h| && forall j :: 0 <= j < n ==> g[j] <= h[j]
    ensures Shortfall(g, h, m) <= Shortfall(g, h, n)
    decreases n
  {
    if m == 0 {
      ShortfallGrows(g, h, n);
    } else {
      ShortfallPrefix(g[1..], h[1..], m - 1, n - 1);
    }
  }

  /** The slices `ss` sit where allocating by layout `l` from byte `q` on puts them. */
  ghost predicate SpreadFrom(ss: seq<CVal>, ns: seq<nat>, l: seq<nat>, q: nat) {
    && |ss| == |ns| <= |l|
    && forall i :: 0 <= i < |ss| ==> ss[i].CSlice? && ss[i].ptr == Spread(q, l, ns)[i]
  }

  /** The slices of a struct were allocated from byte `q` on. */
  ghost predicate Allocated(ms: seq<Ty>, fields: seq<CVal>, q: nat) {
    SpreadFrom(SlicesAll(ms, fields), LengthsAll(ms, fields), InBytes(LayoutFrom([0], ms)), q)
  }

  /** Bytes by which the decorator's layout is too short, over all lists. */
  function Missing(ms: seq<Ty>): int {
    var ts := TokensAll(ms);
    EncodedCount(ts, 0);
    Shortfall(InBytes(TokenLayout(ts)), InBytes(EncodedLayout(ts, 0)), Lists(ts))
  }

  /**
    In-place stores never clobber: when the slices were allocated `delta` bytes
    past their final places, `T_store` from byte `q` on overwrites no slice
    before it is stored, provided `delta` and the byte between a slice and its
    length cover what the layout is short of.
   */
  lemma InPlaceStoreIsClear(size: nat, ms: seq<Ty>, fields: seq<CVal>, q: nat, delta: nat, base: nat)
    requires InMemoryAll(size, ms, fields) && Allocated(ms, fields, q + delta) && Missing(ms) <= delta + 1
    ensures ClearAll(size, ms, fields, 8 * q, base)
  {
    hide *;
    var ts := TokensAll(ms);
    TreeIsFlatAll(size, ms, fields, 8 * q, base);
    LayoutOfTokens(ms);
    AllocatedIsBehind(ms, fields, q, delta);
  }

  /** The same when every slice sits exactly `delta` bytes past its final place, for every type. */
  lemma ShiftedStoreIsClear(size: nat, ms: seq<Ty>, fields: seq<CVal>, q: nat, delta: nat, base: nat)
    requires InMemoryAll(size, ms, fields)
    requires |SlicesAll(ms, fields)| == |LengthsAll(ms, fields)| == Lists(TokensAll(ms))
    requires forall i :: 0 <= i < |SlicesAll(ms, fields)| ==>
               && SlicesAll(ms, fields)[i].CSlice?
               && 8 * SlicesAll(ms, fields)[i].ptr ==
                  DataStarts(TokensAll(ms), LengthsAll(ms, fields), 8 * q)[i] + 8 * delta
    ensures ClearAll(size, ms, fields, 8 * q, base)
  {
    hide SlicesAll, LengthsAll, DataStarts, TokensAll, ClearAll, InMemoryAll;
    TreeIsFlatAll(size, ms, fields, 8 * q, base);
  }

  lemma LayoutOfTokens(ms: seq<Ty>)
    ensures LayoutFrom([0], ms) == TokenLayout(TokensAll(ms))
  {
    hide Join, TokenLayout, LayoutFrom;
    LayoutFromTokens([0], ms);
    JoinLaws(0, TokenLayout(TokensAll(ms)), [0]);
  }

  lemma AllocatedIsBehind(ms: seq<Ty>, fields: seq<CVal>, q: nat, delta: nat)
    requires |SlicesAll(ms, fields)| == |LengthsAll(ms, fields)| == Lists(TokensAll(ms))
    requires Allocated(ms, fields, q + delta) && Missing(ms) <= delta + 1
    ensures Behind(SlicesAll(ms, fields), LengthsAll(ms, fields),
                   DataStarts(TokensAll(ms), LengthsAll(ms, fields), 8 * q))
  {
    hide Behind, SpreadFrom, SlicesAll, LengthsAll, TokensAll, LayoutFrom, TokenLayout, EncodedLayout, InBytes,
         DataStarts, Lists, Shortfall;
    LayoutOfTokens(ms);
    EncodedCount(TokensAll(ms), 0);
    SpreadIsBehind(TokensAll(ms), SlicesAll(ms, fields), LengthsAll(ms, fields), q, delta);
  }

  lemma SpreadIsBehind(ts: seq<Token>, ss: seq<CVal>, ns: seq<nat>, q: nat, delta: nat)
    requires |ss| == |ns| == Lists(ts) && |EncodedLayout(ts, 0)| == |TokenLayout(ts)| == Lists(ts) + 1
    requires SpreadFrom(ss, ns, InBytes(TokenLayout(ts)), q + delta)
    requires Shortfall(InBytes(TokenLayout(ts)), InBytes(EncodedLayout(ts, 0)), Lists(ts)) <= delta + 1
    ensures Behind(ss, ns, DataStarts(ts, ns, 8 * q))
  {
    hide Spread, InBytes, DataStarts, EncodedLayout, TokenLayout, Shortfall, Lists;
    var g, h := InBytes(TokenLayout(ts)), InBytes(EncodedLayout(ts, 0));
    forall j | 0 <= j < Lists(ts) ensures g[j] <= h[j] {
      GapIff(ts, j);
    }
    var starts := DataStarts(ts, ns, 8 * q);
    forall i | 0 <= i < |ss| ensures starts[i] < 8 * ss[i].ptr + 16 {
      DataStartsSpread(ts, ns, q, 0, i);
      ShortfallPrefix(g, h, i + 1, Lists(ts));
      SpreadApart(q, q + delta, g, h, ns, i);
    }
  }

  /** A tight type lacks nothing: any offset will do, and none is the zero-copy case. */
  lemma TightMissesNothing(ms: seq<Ty>)
    requires Tight(TokensAll(ms))
    ensures Missing(ms) == 0
  {
    hide InBytes, EncodedLayout, TokenLayout;
    var ts := TokensAll(ms);
    EncodedCount(ts, 0);
    forall j | 0 <= j < Lists(ts)
      ensures InBytes(TokenLayout(ts))[j] == InBytes(EncodedLayout(ts, 0))[j]
    {
      GapIff(ts, j);
    }
    NoShortfall(InBytes(TokenLayout(ts)), InBytes(EncodedLayout(ts, 0)), Lists(ts));
  }

  lemma {:induction false} NoShortfall(g: seq<nat>, h: seq<nat>, n: nat)
    requires n <= |g| && n <= |h| && forall j :: 0 <= j < n ==> g[j] == h[j]
    ensures Shortfall(g, h, n) == 0
    decreases n
  {
    if n > 0 {
      NoShortfall(g[1..], h[1..], n - 1);
    }
  }

  // ---------------------------------------------------------------- T_alloc_init and T_init

  /**
    `T_alloc_init`. The allocator starts behind the header and the static prefix
    but keeps the full buffer length, so its end lies that much past the buffer's.
   */
  method AllocInit(txBuf: nat, txLen: nat, ms: seq<Ty>) returns (alloc: Alloc)
    ensures fresh(alloc) && alloc.Valid() && alloc.regions == []
    ensures var l := InBytes(LayoutFrom([0], ms));
            && alloc.bufPtr == txBuf + 4 + l[0] && alloc.bufLen == txLen
            && alloc.suffixes == Some(l[1..]) && alloc.suffixesLen == |l| - 1
  {
    var layout, _, _ := Decorate(ms);
    var l := InBytes(layout);
    alloc := new Alloc(txBuf + 4 + l[0], txLen);
    alloc.SetSuffixes(l[1..], |l| - 1);
  }

  /**
    What `T_alloc_init` and then one allocation per list give: slices spread by the
    layout from byte `txBuf + 4` on.
   */
  lemma PrefixThenGaps(q: nat, l: seq<nat>, ns: seq<nat>)
    requires |l| == |ns| + 1
    ensures Spread(q + l[0], [0] + l[1..], ns) == Spread(q, l, ns)
  {
    if ns != [] {
      assert ([0] + l[1..])[1..] == l[1..];
    }
  }

  /** The blocks that `T_init` gets for lists of `ns` bytes after `T_alloc_init` with `at` behind the header. */
  function Offers(at: nat, len: nat, ms: seq<Ty>, ns: seq<nat>): (blocks: seq<Option<nat>>)
    requires |ns| == Lists(TokensAll(ms))
    ensures |blocks| == |ns|
  {
    LayoutEntries(ms);
    var l := InBytes(LayoutFrom([0], ms));
    Grants(at + l[0], l[1..], ns, at + l[0] + len)
  }

  /** Nothing is refused exactly when the blocks that the layout spreads fit, and then the slices stand there. */
  lemma OffersIff(at: nat, len: nat, ms: seq<Ty>, ns: seq<nat>)
    requires |ns| == Lists(TokensAll(ms))
    ensures |InBytes(LayoutFrom([0], ms))| == |ns| + 1
    ensures var blocks, l := Offers(at, len, ms, ns), InBytes(LayoutFrom([0], ms));
            var starts := Spread(at, l, ns);
            && (AllGranted(blocks) <==> AllFit(starts, ns, at + l[0] + len))
            && (AllGranted(blocks) ==> forall i :: 0 <= i < |ns| ==> blocks[i] == Some(starts[i]))
  {
    hide Spread, InBytes, LayoutFrom, AllFit, Lists, TokensAll, Grants, AllGranted;
    LayoutEntries(ms);
    var l := InBytes(LayoutFrom([0], ms));
    PrefixThenGaps(at, l, ns);
    GrantedIff(at + l[0], l[1..], ns, at + l[0] + len);
  }

  /**
    The allocator of `T_alloc_init` and one allocation per list: exactly when all are
    granted, and where they stand then.
   */
  method AllocateSlices(txBuf: nat, txLen: nat, ms: seq<Ty>, ns: seq<nat>) returns (blocks: seq<Option<nat>>)
    requires |ns| == Lists(TokensAll(ms)) < 65536
    ensures blocks == Offers(txBuf + 4, txLen, ms, ns)
    ensures AllGranted(blocks) <==> Accepts(txBuf, txLen, ms, ns)
    ensures AllGranted(blocks) && Tight(TokensAll(ms)) ==>
              forall i :: 0 <= i < |ns| ==> 8 * blocks[i].value == DataStarts(TokensAll(ms), ns, 8 * (txBuf + 4))[i]
  {
    hide Spread, InBytes, DataStarts, LayoutFrom, Tight, Lists, TokensAll, Grants, AllFit, AllGranted;
    LayoutEntries(ms);
    var alloc := AllocInit(txBuf, txLen, ms);
    blocks := AllocateAll(alloc, alloc.suffixes.value, ns);
    OffersIff(txBuf + 4, txLen, ms, ns);
    if AllGranted(blocks) && Tight(TokensAll(ms)) {
      TightIsExact(ms, ns, txBuf + 4);
    }
  }

  lemma LayoutEntries(ms: seq<Ty>)
    ensures |InBytes(LayoutFrom([0], ms))| == Lists(TokensAll(ms)) + 1
  {
    hide TokenLayout, LayoutFrom;
    LayoutOfTokens(ms);
    OneEntryPerList(TokensAll(ms));
  }

  lemma TightIsExact(ms: seq<Ty>, ns: seq<nat>, q: nat)
    requires |ns| == Lists(TokensAll(ms)) && Tight(TokensAll(ms)) && |InBytes(LayoutFrom([0], ms))| == |ns| + 1
    ensures forall i :: 0 <= i < |ns| ==>
              8 * Spread(q, InBytes(LayoutFrom([0], ms)), ns)[i] == DataStarts(TokensAll(ms), ns, 8 * q)[i]
  {
    hide Spread, InBytes, DataStarts, TokenLayout, LayoutFrom, Tight, Lists;
    LayoutOfTokens(ms);
    PlacesExactlyIff(TokensAll(ms), q);
  }

  // ---------------------------------------------------------------- Staying inside the transmit buffer

  /** The last block decides. */
  lemma {:induction false} AllFitIff(q: nat, g: seq<nat>, ns: seq<nat>, end: nat)
    requires |g| >= |ns|
    ensures AllFit(Spread(q, g, ns), ns, end) <==> ns == [] || q + Sum(g[..|ns|]) + Sum(ns) <= end
    decreases |ns|
  {
    if ns != [] {
      var s, s' := Spread(q, g, ns), Spread(q + g[0] + ns[0], g[1..], ns[1..]);
      assert s[0] == q + g[0] && s[1..] == s';
      assert g[..|ns|][1..] == g[1..][..|ns| - 1];
      AllFitIff(q + g[0] + ns[0], g[1..], ns[1..], end);
      if AllFit(s, ns, end) {
        forall i | 0 <= i < |s'| ensures s'[i] + ns[1..][i] <= end {
          assert s'[i] == s[i + 1];
        }
      }
      if AllFit(s', ns[1..], end) && s[0] + ns[0] <= end {
        forall i | 0 <= i < |s| ensures s[i] + ns[i] <= end {
          assert i > 0 ==> s[i] == s'[i - 1] && ns[i] == ns[1..][i - 1];
        }
      }
      if |ns| == 1 {
        assert g[1..][..0] == [] && ns[1..] == [];
      }
    }
  }

  /** Bytes from the start of the transmit buffer to the end of the last block. */
  function Reach(ms: seq<Ty>, ns: seq<nat>): nat
    requires |ns| == Lists(TokensAll(ms))
  {
    LayoutEntries(ms);
    4 + Sum(InBytes(LayoutFrom([0], ms))[..|ns|]) + Sum(ns)
  }

  /** The blocks that `AllocateSlices` hands out lie in the transmit buffer. */
  ghost predicate InsideBuffer(txBuf: nat, txLen: nat, ms: seq<Ty>, ns: seq<nat>)
    requires |ns| == Lists(TokensAll(ms))
  {
    LayoutEntries(ms);
    var starts := Spread(txBuf + 4, InBytes(LayoutFrom([0], ms)), ns);
    forall i :: 0 <= i < |ns| ==> txBuf <= starts[i] && starts[i] + ns[i] <= txBuf + txLen
  }

  /** `AllocateSlices` accepts these lengths. */
  ghost predicate Accepts(txBuf: nat, txLen: nat, ms: seq<Ty>, ns: seq<nat>)
    requires |ns| == Lists(TokensAll(ms))
  {
    LayoutEntries(ms);
    var l := InBytes(LayoutFrom([0], ms));
    AllFit(Spread(txBuf + 4, l, ns), ns, txBuf + 4 + l[0] + txLen)
  }

  lemma {:induction false} SpreadFromBase(q: nat, g: seq<nat>, ns: seq<nat>, i: nat)
    requires |g| >= |ns| && i < |ns|
    ensures q <= Spread(q, g, ns)[i]
    decreases |ns|
  {
    if i > 0 {
      SpreadFromBase(q + g[0] + ns[0], g[1..], ns[1..], i - 1);
    }
  }

  /**
    For every type, all lengths and every buffer: what is accepted, what stays
    inside the transmit buffer, and so exactly which lengths are accepted and
    overrun it, because `T_alloc_init` keeps the full length although it starts
    behind the header and the static prefix.
   */
  lemma InsideBufferIff(txBuf: nat, txLen: nat, ms: seq<Ty>, ns: seq<nat>)
    requires |ns| == Lists(TokensAll(ms))
    ensures |InBytes(LayoutFrom([0], ms))| == |ns| + 1
    ensures Accepts(txBuf, txLen, ms, ns) <==>
            ns == [] || Reach(ms, ns) <= txLen + 4 + InBytes(LayoutFrom([0], ms))[0]
    ensures InsideBuffer(txBuf, txLen, ms, ns) <==> ns == [] || Reach(ms, ns) <= txLen
  {
    hide Spread, InBytes, LayoutFrom, Lists, TokensAll, Sum;
    LayoutEntries(ms);
    var l := InBytes(LayoutFrom([0], ms));
    AllFitIff(txBuf + 4, l, ns, txBuf + 4 + l[0] + txLen);
    AllFitIff(txBuf + 4, l, ns, txBuf + txLen);
    var starts := Spread(txBuf + 4, l, ns);
    forall i | 0 <= i < |ns| ensures txBuf + 4 <= starts[i] {
      SpreadFromBase(txBuf + 4, l, ns, i);
    }
  }

  lemma {:induction false} SumZeroes(n: nat)
    ensures Sum(Zeroes(n)) == 0
    decreases n
  {
    if n > 0 {
      assert Zeroes(n)[1..] == Zeroes(n - 1);
      SumZeroes(n - 1);
    }
  }

  /** Every struct type with a list whose empty message fits the buffer has lengths that are accepted and overrun it. */
  lemma AllocatedPastTheBuffer(txBuf: nat, txLen: nat, ms: seq<Ty>) returns (ns: seq<nat>)
    requires Lists(TokensAll(ms)) > 0 && Reach(ms, Zeroes(Lists(TokensAll(ms)))) <= txLen
    ensures |ns| == Lists(TokensAll(ms))
    ensures Accepts(txBuf, txLen, ms, ns) && !InsideBuffer(txBuf, txLen, ms, ns)
  {
    hide Spread, InBytes, LayoutFrom, TokensAll, Accepts, InsideBuffer;
    var n := Lists(TokensAll(ms));
    SumZeroes(n);
    SumZeroes(n - 1);
    var first := txLen + 1 - Reach(ms, Zeroes(n));
    ns := [first] + Zeroes(n - 1);
    assert ns[1..] == Zeroes(n - 1);
    assert Sum(ns) == first + Sum(Zeroes(n - 1));
    InsideBufferIff(txBuf, txLen, ms, ns);
  }
}
