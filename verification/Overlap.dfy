/**
  Structs whose slices lie where `T_store` writes: exactly when storing such a
  struct gives the value it had, whatever memory holds.
 */
module Overlap {
  import opened BitOps
  import opened BitString
  import opened BitFields
  import opened Results
  import opened Wire
  import opened Types
  import opened Interop
  import opened ByteLevel
  import opened CRuntime
  import opened CHelpers
  import opened Layout
  import opened ZeroCopy
  import opened InPlace

  lemma OneListAtMost(t: Ty)
    ensures t.TList? || t.TBlob? ==> Lists(Tokens(t)) == 1
    ensures t.TNum? || t.TBit? ==> Lists(Tokens(t)) == 0
    ensures t.TStruct? ==> Lists(Tokens(t)) == Lists(TokensAll(t.members))
  {
    if t.TStruct? {
      var tk := TokensAll(t.members);
      ListsAppend([Open], tk);
      ListsAppend([Open] + tk, [Close]);
      assert [Open][1..] == [] && [Close][1..] == [];
    } else {
      assert Tokens(t)[1..] == [];
    }
  }

  // ---------------------------------------------------------------- A list in the way of what is stored before it

  /** Storing over the byte that holds the only difference between two buffers makes them equal. */
  lemma {:induction false} PutCovers(b: seq<bool>, b': seq<bool>, ts: seq<Token>, ls: seq<Leaf>, p: nat, j: nat)
    requires Typed(ts, ls) && End(EMITTED_C, ts, ls, p) <= |b| && DifferOnlyAt(b, b', j)
    requires j % 8 == 0 && p <= j < End(EMITTED_C, ts, ls, p)
    ensures Put(EMITTED_C, b, ts, ls, p) == Put(EMITTED_C, b', ts, ls, p)
    decreases |ts|
  {
    hide Align, Field, Image, Fits;
    var f := Image(ts, ls);
    var s, q := Start(ts[0], p), Next(EMITTED_C, ts[0], p, |f|);
    ImageFits(EMITTED_C, ts, ls, p);
    if j >= q {
      PutCovers(Splice(b, s, f), Splice(b', s, f), ts[1..], Rest(ts[0], ls), q, j);
    } else {
      NoByteBetween(ts, ls, p, j);
      assert Splice(b, s, f) == Splice(b', s, f);
    }
  }

  lemma NoByteBetween(ts: seq<Token>, ls: seq<Leaf>, p: nat, j: nat)
    requires ts != [] && Typed(ts, ls) && j % 8 == 0 && p <= j < Next(EMITTED_C, ts[0], p, |Image(ts, ls)|)
    ensures Start(ts[0], p) <= j < Start(ts[0], p) + |Image(ts, ls)|
  {
    hide Image, Align;
    NotBeforeAligned(p, j);
  }

  lemma NotBeforeAligned(p: nat, j: nat)
    requires j % 8 == 0 && p <= j
    ensures Align(p) <= j
  {
  }

  /** Two memories that differ in the first bit of byte `a` at most, and not even there once `p` has passed it. */
  ghost predicate Twins(m: seq<byte>, m': seq<byte>, a: nat, p: nat) {
    |m| == |m'| && DifferOnlyAt(BitsOf(m), BitsOf(m'), 8 * a) && (8 * a < p ==> m == m')
  }

  /** Storing the same value keeps twins twins. */
  lemma TwinsStore(m: seq<byte>, m': seq<byte>, a: nat, t: Ty, v: Val, p: nat, e: nat)
    requires Twins(m, m', a, p) && Conforms(t, v) && End(EMITTED_C, Tokens(t), Leaves(t, v), p) == e <= 8 * |m|
    ensures Twins(Written(m, t, v, p), Written(m', t, v, p), a, e)
  {
    hide BitsOf, BytesOf, Put, End, Tokens, Leaves, Conforms;
    var ts, ls := Tokens(t), Leaves(t, v);
    PutPointwise(EMITTED_C, BitsOf(m), BitsOf(m'), ts, ls, p, 8 * a);
    if p <= 8 * a < e {
      PutCovers(BitsOf(m), BitsOf(m'), ts, ls, p, 8 * a);
    }
  }

  lemma OtherBytes(m: seq<byte>, m': seq<byte>, a: nat, i: nat)
    requires |m| == |m'| && DifferOnlyAt(BitsOf(m), BitsOf(m'), 8 * a) && i < |m| && i != a
    ensures m[i] == m'[i]
  {
    hide BitsOf;
    BitsOfSlice(m, i, i + 1);
    BitsOfSlice(m', i, i + 1);
    assert BitsOf(m)[8 * i..8 * (i + 1)] == BitsOf(m')[8 * i..8 * (i + 1)];
    BitsOfInjective(m[i..i + 1], m'[i..i + 1]);
    assert m[i] == m[i..i + 1][0] && m'[i] == m'[i..i + 1][0];
  }

  /** A slice that does not hold byte `a`. */
  predicate Misses(c: CVal, n: nat, a: nat) {
    c.CSlice? && (n > 0 ==> a < c.ptr || c.ptr + n <= a)
  }

  predicate AllMiss(ss: seq<CVal>, ns: seq<nat>, a: nat) {
    |ss| == |ns| && forall j :: 0 <= j < |ss| ==> Misses(ss[j], ns[j], a)
  }

  ghost predicate SameButAt(mem: seq<byte>, mem': seq<byte>, a: nat) {
    |mem| == |mem'| && forall i :: 0 <= i < |mem| && i != a ==> mem[i] == mem'[i]
  }

  /** A value does not depend on bytes that its slices do not hold. */
  lemma {:induction false} DenoteElsewhere(mem: seq<byte>, mem': seq<byte>, t: Ty, c: CVal, a: nat)
    requires InMemory(|mem|, t, c) && SameButAt(mem, mem', a) && AllMiss(Slices(t, c), Lengths(t, c), a)
    ensures Denote(mem, t, c) == Denote(mem', t, c)
    decreases t, 1
  {
    hide Contents, Span;
    match t
    case TList(k) => SliceElsewhere(mem, mem', t, c, a);
    case TBlob => SliceElsewhere(mem, mem', t, c, a);
    case TStruct(ms) => DenoteAllElsewhere(mem, mem', ms, c.fields, a);
    case _ =>
  }

  lemma SliceElsewhere(mem: seq<byte>, mem': seq<byte>, t: Ty, c: CVal, a: nat)
    requires (t.TList? || t.TBlob?) && InMemory(|mem|, t, c) && SameButAt(mem, mem', a)
    requires AllMiss(Slices(t, c), Lengths(t, c), a)
    ensures SliceBytes(mem, Element(t), c) == SliceBytes(mem', Element(t), c)
  {
    hide Span;
    assert Misses(Slices(t, c)[0], Lengths(t, c)[0], a);
  }

  lemma {:induction false} DenoteAllElsewhere(mem: seq<byte>, mem': seq<byte>, ts: seq<Ty>, cs: seq<CVal>, a: nat)
    requires InMemoryAll(|mem|, ts, cs) && SameButAt(mem, mem', a) && AllMiss(SlicesAll(ts, cs), LengthsAll(ts, cs), a)
    ensures DenoteAll(mem, ts, cs) == DenoteAll(mem', ts, cs)
    decreases ts, 0
  {
    hide Denote, Slices, Lengths, InMemory, AllMiss;
    if ts != [] {
      SlicesCount(|mem|, ts[0], cs[0]);
      AllMissSplit(Slices(ts[0], cs[0]), SlicesAll(ts[1..], cs[1..]),
                   Lengths(ts[0], cs[0]), LengthsAll(ts[1..], cs[1..]), a);
      DenoteElsewhere(mem, mem', ts[0], cs[0], a);
      DenoteAllElsewhere(mem, mem', ts[1..], cs[1..], a);
    }
  }

  lemma SlicesCount(size: nat, t: Ty, c: CVal)
    requires InMemory(size, t, c)
    ensures |Slices(t, c)| == |Lengths(t, c)| == Lists(Tokens(t))
  {
    TreeIsFlat(size, t, c, 0, 0);
  }

  lemma AllMissSplit(s: seq<CVal>, s': seq<CVal>, n: seq<nat>, n': seq<nat>, a: nat)
    requires |s| == |n| && AllMiss(s + s', n + n', a)
    ensures AllMiss(s, n, a) && AllMiss(s', n', a)
  {
    forall j | 0 <= j < |s| ensures Misses(s[j], n[j], a) {
      assert (s + s')[j] == s[j] && (n + n')[j] == n[j];
    }
    forall j | 0 <= j < |s'| ensures Misses(s'[j], n'[j], a) {
      assert (s + s')[|s| + j] == s'[j] && (n + n')[|s| + j] == n'[j];
    }
  }

  /**
    The i-th slice begins at byte `a`, at or before the place of its length, and the
    slices before it do not hold `a`.
   */
  ghost predicate InTheWay(ss: seq<CVal>, ns: seq<nat>, starts: seq<nat>, a: nat, i: int) {
    && |ss| == |ns| == |starts| && 0 <= i < |ss| && AllMiss(ss[..i], ns[..i], a)
    && ss[i].CSlice? && ss[i].ptr == a && ns[i] > 0 && 8 * a + 16 <= starts[i]
  }

  lemma InTheWaySplit(s: seq<CVal>, s': seq<CVal>, n: seq<nat>, n': seq<nat>, d: seq<nat>, d': seq<nat>, a: nat, i: int)
    requires |s| == |n| == |d| && InTheWay(s + s', n + n', d + d', a, i)
    ensures i < |s| ==> InTheWay(s, n, d, a, i)
    ensures i >= |s| ==> AllMiss(s, n, a) && InTheWay(s', n', d', a, i - |s|)
  {
    var k := |s|;
    if i < k {
      assert (s + s')[..i] == s[..i] && (n + n')[..i] == n[..i];
    } else {
      assert (s + s')[..i] == s + s'[..i - k] && (n + n')[..i] == n + n'[..i - k];
      AllMissSplit(s, s'[..i - k], n, n'[..i - k], a);
    }
  }

  /**
    A store that gives the values from before the call in both of two memories that
    differ in such a byte is impossible.
   */
  lemma {:induction false} NotBoth(mem: seq<byte>, mem': seq<byte>, m: seq<byte>, m': seq<byte>, t: Ty, c: CVal, a: nat,
                                   i: int, p: nat)
    requires |m| == |m'| == |mem| && SameButAt(mem, mem', a) && a < |mem| && mem[a] != mem'[a] && Twins(m, m', a, p)
    requires InMemory(|m|, t, c) && After(|m|, t, c, p) <= 8 * |m|
    requires |Lengths(t, c)| == Lists(Tokens(t))
    requires InTheWay(Slices(t, c), Lengths(t, c), DataStarts(Tokens(t), Lengths(t, c), p), a, i)
    ensures Turn(m, t, c, p) != Denote(mem, t, c) || Turn(m', t, c, p) != Denote(mem', t, c)
    decreases t, 1
  {
    hide Span, Contents, DataStarts, Twins, Moved, AllMiss;
    match t
    case TList(_) =>
      OneList(t, c, p);
      SliceInTheWay(mem, mem', m, m', t, c, a, p);
    case TBlob =>
      OneList(t, c, p);
      SliceInTheWay(mem, mem', m, m', t, c, a, p);
    case TStruct(ms) =>
      OneListAtMost(t);
      BracketStarts(TokensAll(ms), LengthsAll(ms, c.fields), p);
      TwinsAligned(m, m', a, p);
      NotBothAll(mem, mem', m, m', ms, c.fields, a, i, Align(p));
  }

  lemma TwinsAligned(m: seq<byte>, m': seq<byte>, a: nat, p: nat)
    requires Twins(m, m', a, p)
    ensures Twins(m, m', a, Align(p))
  {
    hide BitsOf;
    assert 8 * a < Align(p) ==> 8 * a < p;
  }

  lemma SliceInTheWay(mem: seq<byte>, mem': seq<byte>, m: seq<byte>, m': seq<byte>, t: Ty, c: CVal, a: nat, p: nat)
    requires |m| == |m'| == |mem| && SameButAt(mem, mem', a) && a < |mem| && mem[a] != mem'[a] && Twins(m, m', a, p)
    requires (t.TList? || t.TBlob?) && InMemory(|m|, t, c) && After(|m|, t, c, p) <= 8 * |m|
    requires c.CSlice? && c.ptr == a && Span(Element(t), c.len) > 0 && 8 * a <= Align(p)
    ensures Turn(m, t, c, p) != Denote(mem, t, c) || Turn(m', t, c, p) != Denote(mem', t, c)
  {
    hide Contents, Turn, Denote, After, InMemory, Span, Twins, Moved, Block, Whole;
    var k, dest, n := Element(t), Align(p) / 8, Span(Element(t), c.len);
    SliceTurn(m, t, c, p);
    SliceTurn(m', t, c, p);
    SliceTurn(mem, t, c, p);
    SliceTurn(mem', t, c, p);
    SpanWhole(k, c.len);
    MovedAlike(m, m', a, p, n);
    BlocksDiffer(mem, mem', a, n);
    var x, y, y' := Moved(m, dest, a, n), Block(mem, a, n), Block(mem', a, n);
    if Contents(x, k) == Contents(y, k) && Contents(x, k) == Contents(y', k) {
      ContentsInjective(x, y, k);
      ContentsInjective(x, y', k);
    }
  }

  /** A slice that begins at the byte of twins, at or before the place of its length, is copied alike from both. */
  lemma MovedAlike(m: seq<byte>, m': seq<byte>, a: nat, p: nat, n: nat)
    requires Twins(m, m', a, p) && 8 * a <= Align(p) && a + n <= |m| && Align(p) / 8 + 2 + n <= |m|
    ensures Moved(m, Align(p) / 8, a, n) == Moved(m', Align(p) / 8, a, n)
  {
    hide BitsOf;
    var dest := Align(p) / 8;
    if a == dest {
      forall i | dest + 2 <= i < dest + 2 + n ensures m[i] == m'[i] {
        OtherBytes(m, m', a, i);
      }
    } else {
      assert 8 * a < p;
    }
  }

  lemma BlocksDiffer(mem: seq<byte>, mem': seq<byte>, a: nat, n: nat)
    requires |mem| == |mem'| && 0 < n && a + n <= |mem| && mem[a] != mem'[a]
    ensures Block(mem, a, n) != Block(mem', a, n)
  {
    assert Block(mem, a, n)[0] != Block(mem', a, n)[0];
  }

  lemma {:induction false} NotBothAll(mem: seq<byte>, mem': seq<byte>, m: seq<byte>, m': seq<byte>, ts: seq<Ty>,
                                      cs: seq<CVal>, a: nat, i: int, p: nat)
    requires |m| == |m'| == |mem| && SameButAt(mem, mem', a) && a < |mem| && mem[a] != mem'[a] && Twins(m, m', a, p)
    requires InMemoryAll(|m|, ts, cs) && AfterAll(|m|, ts, cs, p) <= 8 * |m|
    requires |LengthsAll(ts, cs)| == Lists(TokensAll(ts))
    requires InTheWay(SlicesAll(ts, cs), LengthsAll(ts, cs), DataStarts(TokensAll(ts), LengthsAll(ts, cs), p), a, i)
    ensures TurnAll(m, ts, cs, p) != DenoteAll(mem, ts, cs) || TurnAll(m', ts, cs, p) != DenoteAll(mem', ts, cs)
    decreases ts, 0
  {
    hide Turn, Denote, Written, DataStarts, Twins, After, InMemory, Tokens, Lengths, Slices, InTheWay, AllMiss, Leaves,
         Conforms;
    NothingInTheWay(ts, cs, p, a, i);
    var t, c, e := ts[0], cs[0], After(|m|, ts[0], cs[0], p);
    SlicesCount(|m|, t, c);
    ListsAppend(Tokens(t), TokensAll(ts[1..]));
    TreeIsFlat(|m|, t, c, p, 0);
    StartsAppend(Tokens(t), TokensAll(ts[1..]), Lengths(t, c), LengthsAll(ts[1..], cs[1..]), p);
    InTheWaySplit(Slices(t, c), SlicesAll(ts[1..], cs[1..]), Lengths(t, c), LengthsAll(ts[1..], cs[1..]),
                  DataStarts(Tokens(t), Lengths(t, c), p),
                  DataStarts(TokensAll(ts[1..]), LengthsAll(ts[1..], cs[1..]), e), a, i);
    var n := |Slices(t, c)|;
    if i < n {
      NotBoth(mem, mem', m, m', t, c, a, i, p);
      HeadsDiffer(mem, m, ts, cs, p);
      HeadsDiffer(mem', m', ts, cs, p);
    } else if Turn(m, t, c, p) == Denote(mem, t, c) && Turn(m', t, c, p) == Denote(mem', t, c) {
      var v := Denote(mem, t, c);
      DenoteElsewhere(mem, mem', t, c, a);
      TurnAfter(m, t, c, p);
      TwinsStore(m, m', a, t, v, p, e);
      NotBothAll(mem, mem', Written(m, t, v, p), Written(m', t, v, p), ts[1..], cs[1..], a, i - n, e);
      HeadsDiffer(mem, m, ts, cs, p);
      HeadsDiffer(mem', m', ts, cs, p);
    } else {
      HeadsDiffer(mem, m, ts, cs, p);
      HeadsDiffer(mem', m', ts, cs, p);
    }
  }

  lemma NothingInTheWay(ts: seq<Ty>, cs: seq<CVal>, p: nat, a: nat, i: int)
    requires |LengthsAll(ts, cs)| == Lists(TokensAll(ts)) && |ts| == |cs|
    requires InTheWay(SlicesAll(ts, cs), LengthsAll(ts, cs), DataStarts(TokensAll(ts), LengthsAll(ts, cs), p), a, i)
    ensures ts != []
  {
  }

  /** Lists of values are equal when heads and tails are. */
  lemma HeadsDiffer(mem: seq<byte>, m: seq<byte>, ts: seq<Ty>, cs: seq<CVal>, p: nat)
    requires |m| == |mem| && InMemoryAll(|m|, ts, cs) && AfterAll(|m|, ts, cs, p) <= 8 * |m| && ts != []
    ensures TurnAll(m, ts, cs, p)[0] == Turn(m, ts[0], cs[0], p)
    ensures TurnAll(m, ts, cs, p)[1..] ==
            TurnAll(Written(m, ts[0], Turn(m, ts[0], cs[0], p), p), ts[1..], cs[1..], After(|m|, ts[0], cs[0], p))
    ensures DenoteAll(mem, ts, cs)[0] == Denote(mem, ts[0], cs[0])
    ensures DenoteAll(mem, ts, cs)[1..] == DenoteAll(mem, ts[1..], cs[1..])
  {
    hide Turn, Denote, Written, After, InMemory;
  }

  // ---------------------------------------------------------------- The exact condition for one struct

  /** The slices do not overlap, and none begins before byte `q`. */
  ghost predicate Apart(ss: seq<CVal>, ns: seq<nat>, q: nat) {
    && |ss| == |ns|
    && (forall i :: 0 <= i < |ss| ==> ss[i].CSlice? && (ns[i] > 0 ==> q <= ss[i].ptr))
    && (forall i, j :: 0 <= i < j < |ss| && ns[i] > 0 && ns[j] > 0 ==>
          ss[i].ptr + ns[i] <= ss[j].ptr || ss[j].ptr + ns[j] <= ss[i].ptr)
  }

  /** Storing the struct at byte `q` gives the value from before the call, whatever is in memory. */
  ghost predicate StoredAsHeld(size: nat, ms: seq<Ty>, fields: seq<CVal>, q: nat)
    requires InMemoryAll(size, ms, fields) && AfterAll(size, ms, fields, 8 * q) <= 8 * size
  {
    forall mem: seq<byte> :: |mem| == size ==> TurnAll(mem, ms, fields, 8 * q) == DenoteAll(mem, ms, fields)
  }

  /** A memory of zeros with one byte set. */
  function Marked(size: nat, a: nat, x: byte): (mem: seq<byte>)
    ensures |mem| == size
    ensures forall i :: 0 <= i < size ==> mem[i] == if i == a then x else 0
  {
    seq(size, i requires 0 <= i < size => if i == a then x else 0)
  }

  lemma MarkedTwins(size: nat, a: nat, p: nat)
    requires a < size && p <= 8 * a
    ensures Twins(Marked(size, a, 0), Marked(size, a, 128), a, p)
  {
    hide BitsOf;
    var m, m' := Marked(size, a, 0), Marked(size, a, 128);
    forall j | 0 <= j < 8 * size && j != 8 * a ensures BitsOf(m)[j] == BitsOf(m')[j] {
      BitsOfAt(m, j);
      BitsOfAt(m', j);
      if j / 8 == a {
        MarkedBit(7 - j % 8);
      }
    }
  }

  lemma MarkedBit(i: nat)
    requires i < 7
    ensures TestBit(0, i) == TestBit(128, i)
  {
    assert i == 0 || i == 1 || i == 2 || i == 3 || i == 4 || i == 5 || i == 6;
  }

  /**
    For every struct whose slices do not overlap and lie at or behind the message:
    storing it gives the value it had, for all contents of memory, if and only if
    every slice that holds something begins behind the place of its length.
   */
  lemma StoredAsHeldIff(size: nat, ms: seq<Ty>, fields: seq<CVal>, q: nat)
    requires InMemoryAll(size, ms, fields) && AfterAll(size, ms, fields, 8 * q) <= 8 * size
    requires Apart(SlicesAll(ms, fields), LengthsAll(ms, fields), q)
    ensures |LengthsAll(ms, fields)| == Lists(TokensAll(ms))
    ensures StoredAsHeld(size, ms, fields, q) <==>
            Behind(SlicesAll(ms, fields), LengthsAll(ms, fields),
                   DataStarts(TokensAll(ms), LengthsAll(ms, fields), 8 * q))
  {
    hide TurnAll, DenoteAll, InMemoryAll, AfterAll, SlicesAll, LengthsAll, DataStarts, Lists, TokensAll, ClearAll;
    TreeIsFlatAll(size, ms, fields, 8 * q, q);
    var ss, ns := SlicesAll(ms, fields), LengthsAll(ms, fields);
    var starts := DataStarts(TokensAll(ms), ns, 8 * q);
    if Behind(ss, ns, starts) {
      forall mem: seq<byte> | |mem| == size ensures TurnAll(mem, ms, fields, 8 * q) == DenoteAll(mem, ms, fields) {
        TurnAllIsDenote(mem, ms, fields, 8 * q, q);
      }
    } else {
      var i :| 0 <= i < |ss| && ns[i] > 0 && 8 * ss[i].ptr + 16 <= starts[i];
      SomeMemoryFails(size, ms, fields, q, i);
    }
  }

  lemma SomeMemoryFails(size: nat, ms: seq<Ty>, fields: seq<CVal>, q: nat, i: nat)
    requires InMemoryAll(size, ms, fields) && AfterAll(size, ms, fields, 8 * q) <= 8 * size
    requires Apart(SlicesAll(ms, fields), LengthsAll(ms, fields), q) && i < |SlicesAll(ms, fields)|
    requires |LengthsAll(ms, fields)| == Lists(TokensAll(ms)) && LengthsAll(ms, fields)[i] > 0
    requires 8 * SlicesAll(ms, fields)[i].ptr + 16 <= DataStarts(TokensAll(ms), LengthsAll(ms, fields), 8 * q)[i]
    ensures !StoredAsHeld(size, ms, fields, q)
  {
    hide TurnAll, DenoteAll, InMemoryAll, AfterAll, SlicesAll, LengthsAll, DataStarts, Lists, TokensAll, Twins, Within;
    var ss, ns, a := SlicesAll(ms, fields), LengthsAll(ms, fields), SlicesAll(ms, fields)[i].ptr;
    var m, m' := Marked(size, a, 0), Marked(size, a, 128);
    SliceDataAll(m, ms, fields);
    SliceWithin(size, ss, ns, i);
    MarkedTwins(size, a, 8 * q);
    NotBothAll(m, m', m, m', ms, fields, a, i, 8 * q);
  }

  lemma SliceWithin(size: nat, ss: seq<CVal>, ns: seq<nat>, i: nat)
    requires Within(size, ss, ns) && i < |ss| && ns[i] > 0
    ensures ss[i].CSlice? && ss[i].ptr + ns[i] <= size
  {
  }
}
