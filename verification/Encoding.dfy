/**
  What the bytes of a message are, written out: every field in order, with its
  size in bits, and zeros up to a byte boundary where the implementation skips.
 */
module Encoding {
  import opened BitOps
  import opened BitString
  import opened Results
  import opened Wire
  import opened Types
  import opened Interop

  // ---------------------------------------------------------------- Numbers

  /** Size in bits. */
  function Size(k: Num): nat {
    match k
    case U8 => 8 case I8 => 8
    case U16 => 16 case I16 => 16
    case U32 => 32 case I32 => 32 case F32 => 32
    case U64 => 64 case I64 => 64 case F64 => 64
  }

  /** Floats are opaque bit patterns. */
  function Least(k: Num): int {
    match k
    case I8 => -128
    case I16 => -32768
    case I32 => -2147483648
    case I64 => -9223372036854775808
    case _ => 0
  }

  function Greatest(k: Num): int {
    match k
    case U8 => 255 case I8 => 127
    case U16 => 65535 case I16 => 32767
    case U32 => 4294967295 case I32 => 2147483647 case F32 => 4294967295
    case U64 => 18446744073709551615 case I64 => 9223372036854775807 case F64 => 18446744073709551615
  }

  lemma PowersOfTwo()
    ensures Pow2(7) == 128 && Pow2(8) == 256 && Pow2(15) == 32768 && Pow2(16) == 65536
    ensures Pow2(31) == 2147483648 && Pow2(32) == 4294967296
    ensures Pow2(63) == 9223372036854775808 && Pow2(64) == 18446744073709551616
  {
    hide Pow2;
    SmallPowers();
    Pow2Add(4, 3);
    Pow2Add(4, 4);
    Pow2Add(8, 7);
    Pow2Add(8, 8);
    Pow2Add(16, 15);
    Pow2Add(16, 16);
    Pow2Add(32, 31);
    Pow2Add(32, 32);
  }

  lemma SmallPowers()
    ensures Pow2(3) == 8 && Pow2(4) == 16
  {
  }

  /** The range of each kind of number, and the bytes it takes. */
  lemma NumberRange(k: Num, x: int)
    ensures InRange(k, x) <==> Least(k) <= x <= Greatest(k)
    ensures 8 * Width(k) == Size(k)
  {
    hide Pow2;
    PowersOfTwo();
  }

  lemma {:induction false} AddPower(x: int, n: nat, i: nat)
    requires i < n
    ensures TestBit(x + Pow2(n), i) == TestBit(x, i)
    decreases i
  {
    HalvePower(x, n);
    if i > 0 {
      AddPower(x / 2, n - 1, i - 1);
    }
  }

  lemma HalvePower(x: int, n: nat)
    requires n > 0
    ensures (x + Pow2(n)) % 2 == x % 2 && (x + Pow2(n)) / 2 == x / 2 + Pow2(n - 1)
  {
    assert x + Pow2(n) == 2 * (x / 2 + Pow2(n - 1)) + x % 2;
  }

  /** The pattern of a negative number has the bits of the number itself. */
  lemma PatternBits(k: Num, x: int)
    requires InRange(k, x)
    ensures NatBits(Pattern(k, x), 8 * Width(k)) == NatBits(x, Size(k))
  {
    hide Pow2, TestBit;
    NumberRange(k, x);
    var n := Size(k);
    if x < 0 {
      forall i | 0 <= i < n ensures NatBits(x + Pow2(n), n)[i] == NatBits(x, n)[i] {
        AddPower(x, n, n - 1 - i);
      }
    }
  }

  /** A number in base 256, most significant byte first. */
  function Base256(bytes: seq<byte>): nat {
    if bytes == [] then 0 else 256 * Base256(bytes[..|bytes| - 1]) + bytes[|bytes| - 1] as nat
  }

  lemma {:induction false} NatOfAppend(a: seq<bool>, b: seq<bool>)
    ensures NatOf(a + b) == NatOf(a) * Pow2(|b|) + NatOf(b)
    decreases |b|
  {
    if b == [] {
      assert a + b == a;
    } else {
      var m := |b| - 1;
      assert (a + b)[..|a + b| - 1] == a + b[..m];
      NatOfAppend(a, b[..m]);
      Doubled(NatOf(a), Pow2(m), NatOf(b[..m]));
    }
  }

  lemma Doubled(x: nat, y: nat, z: nat)
    ensures 2 * (x * y + z) == x * (2 * y) + 2 * z
  {
  }

  lemma {:induction false} Base256IsNatOf(bytes: seq<byte>)
    ensures Base256(bytes) == NatOf(BitsOf(bytes))
    decreases |bytes|
  {
    hide NatOf, BitsOf, NatBits, Pow2;
    if bytes == [] {
      NothingIsZero();
    } else {
      var m := |bytes| - 1;
      Base256IsNatOf(bytes[..m]);
      assert bytes == bytes[..m] + [bytes[m]];
      BitsOfAppend(bytes[..m], [bytes[m]]);
      BitsOfByte(bytes[m]);
      PowersOfTwo();
      NatOfNatBits(bytes[m], 8);
      NatOfAppend(BitsOf(bytes[..m]), NatBits(bytes[m], 8));
    }
  }

  lemma NothingIsZero()
    ensures NatOf(BitsOf([])) == 0
  {
  }

  /** The bytes of a number in range: base 256, with 2 to the power of its size added when it is negative. */
  lemma NumberBytes(k: Num, x: int, bytes: seq<byte>)
    requires Least(k) <= x <= Greatest(k) && BitsOf(bytes) == NatBits(x, Size(k))
    ensures 8 * |bytes| == Size(k)
    ensures Base256(bytes) == if x < 0 then x + Greatest(k) - Least(k) + 1 else x
  {
    hide NatOf, BitsOf, NatBits, Pow2;
    NumberRange(k, x);
    PatternBits(k, x);
    Base256IsNatOf(bytes);
    NatOfNatBits(Pattern(k, x), 8 * Width(k));
    PatternValue(k, x);
  }

  lemma PatternValue(k: Num, x: int)
    requires InRange(k, x)
    ensures Pattern(k, x) == if x < 0 then x + Greatest(k) - Least(k) + 1 else x
  {
    hide Pow2;
    PowersOfTwo();
  }

  // ---------------------------------------------------------------- Fields in order

  function ElementBits(size: nat, xs: seq<int>): seq<bool> {
    if xs == [] then [] else NatBits(xs[0], size) + ElementBits(size, xs[1..])
  }

  /** A list: the number of bytes of its elements in 16 bits, and the elements. */
  function ListBits(size: nat, xs: seq<int>): seq<bool> {
    NatBits(size / 8 * |xs|, 16) + ElementBits(size, xs)
  }

  /** What buffer `b` holds from `p` up to the next byte boundary; nothing but zeros behind its end. */
  function Gap(b: seq<bool>, p: nat): (g: seq<bool>)
    ensures |g| < 8 && (p + |g|) % 8 == 0
  {
    seq((8 - p % 8) % 8, i requires 0 <= i < (8 - p % 8) % 8 => p + i < |b| && b[p + i])
  }

  /** The bits of a value that is not a struct. */
  function Alone(t: Ty, v: Val): seq<bool> {
    match (t, v)
    case (TBit(n), VNum(x)) => NatBits(x, n)
    case (TNum(k), VNum(x)) => NatBits(x, Size(k))
    case (TList(k), VList(xs)) => ListBits(Size(k), xs)
    case (TBlob, VList(xs)) => ListBits(8, xs)
    case _ => []
  }

  /**
    The bits of a value that begins at bit `p` over buffer `b`. Numbers and lists
    begin at a byte boundary, bit fields where they are. Whether structs begin and
    finish at a byte boundary is said by `begin` and `finish`.
   */
  function Laid(b: seq<bool>, t: Ty, v: Val, p: nat, begin: bool, finish: bool): seq<bool>
    decreases t, 1
  {
    match t
    case TBit(_) => Alone(t, v)
    case TStruct(ms) =>
      if !v.VStruct? then []
      else
        var open := if begin then Gap(b, p) else [];
        var inner := LaidAll(b, ms, v.vs, p + |open|, begin, finish);
        open + inner + (if finish then Gap(b, p + |open| + |inner|) else [])
    case _ => Gap(b, p) + Alone(t, v)
  }

  function LaidAll(b: seq<bool>, ts: seq<Ty>, vs: seq<Val>, p: nat, begin: bool, finish: bool): seq<bool>
    decreases ts, 0
  {
    if ts == [] || vs == [] then []
    else
      var first := Laid(b, ts[0], vs[0], p, begin, finish);
      first + LaidAll(b, ts[1..], vs[1..], p + |first|, begin, finish)
  }

  // ---------------------------------------------------------------- Writing is laying out

  lemma GapReaches(b: seq<bool>, p: nat)
    ensures p + |Gap(b, p)| == Align(p)
    ensures Align(p) <= |b| ==> Gap(b, p) == b[p..Align(p)]
  {
  }

  lemma {:induction false} ItemsAreElements(k: Num, xs: seq<int>)
    requires AllInRange(k, xs)
    ensures Items(Width(k), Patterns(k, xs)) == ElementBits(Size(k), xs)
    ensures |ElementBits(Size(k), xs)| == Size(k) * |xs| == 8 * (Size(k) / 8 * |xs|)
    decreases |xs|
  {
    hide Pow2, NatBits, Pattern, InRange, Size;
    SizeOf(k);
    if xs != [] {
      PatternBits(k, xs[0]);
      assert Patterns(k, xs)[1..] == Patterns(k, xs[1..]);
      ItemsAreElements(k, xs[1..]);
      Distribute(Size(k), |xs|);
    }
  }

  lemma SizeOf(k: Num)
    ensures Size(k) == 8 * Width(k) && Size(k) / 8 == Width(k)
  {
  }

  lemma Distribute(n: nat, m: nat)
    requires m > 0 && n % 8 == 0
    ensures n + n * (m - 1) == n * m == 8 * (n / 8 * m)
  {
    var q := n / 8;
    assert n == 8 * q;
    assert (8 * q) * m == 8 * (q * m);
  }

  lemma LaidStructIs(b: seq<bool>, ms: seq<Ty>, vs: seq<Val>, p: nat, begin: bool, finish: bool)
    ensures var open := if begin then Gap(b, p) else [];
            var inner := LaidAll(b, ms, vs, p + |open|, begin, finish);
            Laid(b, TStruct(ms), VStruct(vs), p, begin, finish) ==
            open + inner + (if finish then Gap(b, p + |open| + |inner|) else [])
  {
    hide Gap, LaidAll;
  }

  lemma LaidLeafIs(b: seq<bool>, t: Ty, v: Val, p: nat, begin: bool, finish: bool)
    requires !(t.TStruct? && v.VStruct?)
    ensures Laid(b, t, v, p, begin, finish) ==
            if t.TStruct? then [] else if t.TBit? then Alone(t, v) else Gap(b, p) + Alone(t, v)
  {
    hide Gap, Alone;
  }

  lemma {:induction false} LaidFrame(b: seq<bool>, b': seq<bool>, t: Ty, v: Val, p: nat, begin: bool, finish: bool)
    requires |b| == |b'| && forall i :: p <= i < |b| ==> b[i] == b'[i]
    ensures Laid(b, t, v, p, begin, finish) == Laid(b', t, v, p, begin, finish)
    decreases t, 1
  {
    hide Gap, Alone, Laid, LaidAll;
    GapFrame(b, b', p);
    if t.TStruct? && v.VStruct? {
      var q := p + (if begin then |Gap(b, p)| else 0);
      LaidStructIs(b, t.members, v.vs, p, begin, finish);
      LaidStructIs(b', t.members, v.vs, p, begin, finish);
      LaidAllFrame(b, b', t.members, v.vs, q, begin, finish);
      GapFrame(b, b', q + |LaidAll(b, t.members, v.vs, q, begin, finish)|);
    } else {
      LaidLeafIs(b, t, v, p, begin, finish);
      LaidLeafIs(b', t, v, p, begin, finish);
    }
  }

  lemma GapFrame(b: seq<bool>, b': seq<bool>, p: nat)
    requires |b| == |b'| && forall i :: p <= i < |b| ==> b[i] == b'[i]
    ensures Gap(b, p) == Gap(b', p)
  {
  }

  lemma {:induction false} LaidAllFrame(b: seq<bool>, b': seq<bool>, ts: seq<Ty>, vs: seq<Val>, p: nat, begin: bool,
                                        finish: bool)
    requires |b| == |b'| && forall i :: p <= i < |b| ==> b[i] == b'[i]
    ensures LaidAll(b, ts, vs, p, begin, finish) == LaidAll(b', ts, vs, p, begin, finish)
    decreases ts, 0
  {
    hide Laid;
    if ts != [] && vs != [] {
      LaidFrame(b, b', ts[0], vs[0], p, begin, finish);
      LaidAllFrame(b, b', ts[1..], vs[1..], p + |Laid(b, ts[0], vs[0], p, begin, finish)|, begin, finish);
    }
  }

  /** What is laid out over two buffers is equally long. */
  lemma {:induction false} LaidLength(b: seq<bool>, b': seq<bool>, t: Ty, v: Val, p: nat, begin: bool, finish: bool)
    ensures |Laid(b, t, v, p, begin, finish)| == |Laid(b', t, v, p, begin, finish)|
    decreases t, 1
  {
    hide Gap, Alone, Align, Laid, LaidAll;
    SameGap(b, b', p);
    if t.TStruct? && v.VStruct? {
      var q := p + (if begin then |Gap(b, p)| else 0);
      LaidStructIs(b, t.members, v.vs, p, begin, finish);
      LaidStructIs(b', t.members, v.vs, p, begin, finish);
      LaidAllLength(b, b', t.members, v.vs, q, begin, finish);
      SameGap(b, b', q + |LaidAll(b, t.members, v.vs, q, begin, finish)|);
    } else {
      LaidLeafIs(b, t, v, p, begin, finish);
      LaidLeafIs(b', t, v, p, begin, finish);
    }
  }

  lemma SameGap(b: seq<bool>, b': seq<bool>, p: nat)
    ensures |Gap(b, p)| == |Gap(b', p)|
  {
  }

  lemma {:induction false} LaidAllLength(b: seq<bool>, b': seq<bool>, ts: seq<Ty>, vs: seq<Val>, p: nat, begin: bool,
                                         finish: bool)
    ensures |LaidAll(b, ts, vs, p, begin, finish)| == |LaidAll(b', ts, vs, p, begin, finish)|
    decreases ts, 0
  {
    hide Laid;
    if ts != [] && vs != [] {
      LaidLength(b, b', ts[0], vs[0], p, begin, finish);
      LaidAllLength(b, b', ts[1..], vs[1..], p + |Laid(b, ts[0], vs[0], p, begin, finish)|, begin, finish);
    }
  }

  /** Buffer `b` with `l` from bit `p` on. */
  ghost predicate Holds(now: seq<bool>, b: seq<bool>, p: nat, l: seq<bool>) {
    p + |l| <= |b| && now == b[..p] + l + b[p + |l|..]
  }

  /** Whatever a writer puts over a buffer is what is laid out there, and nothing else changes. */
  lemma {:induction false} EmitIsLaid(d: Dialect, b: seq<bool>, t: Ty, v: Val, p: nat)
    requires Writer(d) && |b| % 8 == 0 && EmitOne(d, b, t, v, p).Some?
    ensures var (now, e) := EmitOne(d, b, t, v, p).value;
            var l := Laid(b, t, v, p, d.alignOpen, d.alignClose);
            e == p + |l| && Holds(now, b, p, l)
    decreases t, 1
  {
    hide EmitOne, EmitAll, Gap, Holds, Writer, Align, Conforms, Next, Laid, LaidAll;
    match t
    case TStruct(ms) =>
      StructConforms(d, b, ms, v, p);
      EmitStruct(d, b, ms, v.vs, p);
      var q := Next(d, Open, p, 0);
      EmitAllIsLaid(d, b, ms, v.vs, q);
      EmittedInside(d, b, t, v, p);
      LaidStruct(d, b, ms, v.vs, p);
      var (now, e) := EmitAll(d, b, ms, v.vs, q).value;
      Bracketed(now, b, p, q, e, Next(d, Close, e, 0), LaidAll(b, ms, v.vs, q, d.alignOpen, d.alignClose));
    case _ => EmitTokenIsLaid(d, b, t, v, p);
  }

  lemma LaidStruct(d: Dialect, b: seq<bool>, ms: seq<Ty>, vs: seq<Val>, p: nat)
    ensures var q := Next(d, Open, p, 0);
            var l := LaidAll(b, ms, vs, q, d.alignOpen, d.alignClose);
            var e := q + |l|;
            var f := Next(d, Close, e, 0);
            && p <= q && e <= f
            && (f <= |b| ==> Laid(b, TStruct(ms), VStruct(vs), p, d.alignOpen, d.alignClose) == b[p..q] + l + b[e..f])
  {
    hide Gap, Align, LaidAll;
    GapReaches(b, p);
    var q := Next(d, Open, p, 0);
    var l := LaidAll(b, ms, vs, q, d.alignOpen, d.alignClose);
    GapReaches(b, q + |l|);
    assert q <= |b| && !d.alignOpen ==> b[p..q] == [];
  }

  lemma StructConforms(d: Dialect, b: seq<bool>, ms: seq<Ty>, v: Val, p: nat)
    requires Writer(d) && EmitOne(d, b, TStruct(ms), v, p).Some?
    ensures v.VStruct?
  {
  }

  lemma EmittedInside(d: Dialect, b: seq<bool>, t: Ty, v: Val, p: nat)
    requires Writer(d) && EmitOne(d, b, t, v, p).Some?
    ensures EmitOne(d, b, t, v, p).value.1 <= |b|
  {
  }

  lemma Bracketed(now: seq<bool>, b: seq<bool>, p: nat, q: nat, e: nat, f: nat, l: seq<bool>)
    requires p <= q <= e <= f <= |b| && e == q + |l| && Holds(now, b, q, l)
    ensures Holds(now, b, p, b[p..q] + l + b[e..f])
  {
    assert b[..q] == b[..p] + b[p..q] && b[e..] == b[e..f] + b[f..];
  }

  /** A value that is not a struct: its bits at its place, and what was there up to it. */
  lemma EmitTokenIsLaid(d: Dialect, b: seq<bool>, t: Ty, v: Val, p: nat)
    requires Writer(d) && !t.TStruct? && EmitOne(d, b, t, v, p).Some?
    ensures var (now, e) := EmitOne(d, b, t, v, p).value;
            var l := Laid(b, t, v, p, d.alignOpen, d.alignClose);
            e == p + |l| && Holds(now, b, p, l)
  {
    hide EmitOne, Gap, Align, Alone, Splice, Holds, Writer;
    var s := if t.TBit? then p else Align(p);
    EmitTokenIs(d, b, t, v, p);
    GapReaches(b, p);
    Spliced(b, p, s, Alone(t, v));
    assert b[p..p] + Alone(t, v) == Alone(t, v);
  }

  lemma EmitTokenIs(d: Dialect, b: seq<bool>, t: Ty, v: Val, p: nat)
    requires Writer(d) && !t.TStruct? && EmitOne(d, b, t, v, p).Some?
    ensures var s, f := if t.TBit? then p else Align(p), Alone(t, v);
            && p <= s && s + |f| <= |b| && EmitOne(d, b, t, v, p) == Some((Splice(b, s, f), s + |f|))
  {
    hide Align, Splice, Put, End, Field, Alone, Conforms, Fits;
    var tk, ls := Tokens(t), Leaves(t, v);
    FieldBits(t, v);
    assert tk == [tk[0]] && ls == [ls[0]];
    SingleToken(d, b, tk[0], ls[0], p);
  }

  lemma FieldBits(t: Ty, v: Val)
    requires !t.TStruct? && Conforms(t, v)
    ensures |Tokens(t)| == 1 && |Leaves(t, v)| == 1 && Takes(Tokens(t)[0]) && Fits(Tokens(t)[0], Leaves(t, v)[0])
    ensures Tokens(t)[0].Bits? <==> t.TBit?
    ensures Field(Tokens(t)[0], Leaves(t, v)[0]) == Alone(t, v)
  {
    hide NatBits, Size, Width, Pow2, Pattern, InRange, Items, Patterns, ElementBits, AllInRange, ListBits;
    match t
    case TNum(k) => PatternBits(k, v.x);
    case TList(k) => ListFieldBits(k, v);
    case TBlob => ListFieldBits(U8, v);
    case _ =>
  }

  lemma ListFieldBits(k: Num, v: Val)
    requires ListConforms(k, v)
    ensures var it := Items(Width(k), Patterns(k, v.xs)); NatBits(|it| / 8, 16) + it == ListBits(Size(k), v.xs)
    ensures Size(U8) == 8 && Width(U8) == 1
  {
    hide NatBits, ElementBits, Items, Pow2, Size, Width;
    ByteSize();
    ItemsAreElements(k, v.xs);
  }

  lemma ByteSize()
    ensures Size(U8) == 8 && Width(U8) == 1
  {
  }

  lemma Spliced(b: seq<bool>, p: nat, s: nat, f: seq<bool>)
    requires p <= s && s + |f| <= |b|
    ensures Holds(Splice(b, s, f), b, p, b[p..s] + f)
  {
    assert b[..s] == b[..p] + b[p..s];
  }

  lemma {:induction false} EmitAllIsLaid(d: Dialect, b: seq<bool>, ts: seq<Ty>, vs: seq<Val>, p: nat)
    requires Writer(d) && |b| % 8 == 0 && EmitAll(d, b, ts, vs, p).Some?
    ensures var (now, e) := EmitAll(d, b, ts, vs, p).value;
            var l := LaidAll(b, ts, vs, p, d.alignOpen, d.alignClose);
            e == p + |l| && Holds(now, b, p, l)
    decreases ts, 0
  {
    hide EmitOne, Laid, LaidAll, Writer, EmitAll, Holds;
    CountsMatch(d, b, ts, vs, p);
    if ts == [] {
      NothingLaid(d, b, p);
    } else {
      EmitCons(d, b, ts, vs, p);
      var (b1, e1) := EmitOne(d, b, ts[0], vs[0], p).value;
      EmitIsLaid(d, b, ts[0], vs[0], p);
      EmitAllIsLaid(d, b1, ts[1..], vs[1..], e1);
      var l := Laid(b, ts[0], vs[0], p, d.alignOpen, d.alignClose);
      HeldBehind(b1, b, p, l);
      LaidAllFrame(b, b1, ts[1..], vs[1..], e1, d.alignOpen, d.alignClose);
      LaidAllStep(b, ts, vs, p, d.alignOpen, d.alignClose);
      var now := EmitAll(d, b1, ts[1..], vs[1..], e1).value.0;
      HeldTwice(now, b1, b, p, l, LaidAll(b, ts[1..], vs[1..], e1, d.alignOpen, d.alignClose));
    }
  }

  lemma NothingLaid(d: Dialect, b: seq<bool>, p: nat)
    requires Writer(d) && EmitAll(d, b, [], [], p).Some?
    ensures EmitAll(d, b, [], [], p) == Some((b, p))
    ensures LaidAll(b, [], [], p, d.alignOpen, d.alignClose) == [] && Holds(b, b, p, [])
  {
    assert b[..p] + [] + b[p..] == b;
  }

  lemma LaidAllStep(b: seq<bool>, ts: seq<Ty>, vs: seq<Val>, p: nat, begin: bool, finish: bool)
    requires ts != [] && vs != []
    ensures var first := Laid(b, ts[0], vs[0], p, begin, finish);
            LaidAll(b, ts, vs, p, begin, finish) ==
            first + LaidAll(b, ts[1..], vs[1..], p + |first|, begin, finish)
  {
    hide Laid;
  }

  lemma CountsMatch(d: Dialect, b: seq<bool>, ts: seq<Ty>, vs: seq<Val>, p: nat)
    requires Writer(d) && EmitAll(d, b, ts, vs, p).Some?
    ensures |ts| == |vs|
  {
  }

  lemma HeldBehind(now: seq<bool>, b: seq<bool>, p: nat, l: seq<bool>)
    requires Holds(now, b, p, l)
    ensures |now| == |b| && forall i :: p + |l| <= i < |b| ==> now[i] == b[i]
  {
  }

  lemma HeldTwice(now: seq<bool>, b1: seq<bool>, b: seq<bool>, p: nat, l: seq<bool>, m: seq<bool>)
    requires Holds(b1, b, p, l) && Holds(now, b1, p + |l|, m)
    ensures Holds(now, b, p, l + m)
  {
    var e := p + |l|;
    assert b1[..e] == b[..p] + l;
    assert b1[e + |m|..] == b[e + |m|..];
  }

  /** The end position of a message is the length of what is laid out. */
  lemma EndIsLaid(d: Dialect, b: seq<bool>, ts: seq<Ty>, vs: seq<Val>, p: nat)
    requires Writer(d) && ConformAll(ts, vs)
    ensures EndOf(d, ts, vs, p) == p + |LaidAll(b, ts, vs, p, d.alignOpen, d.alignClose)|
  {
    hide Put, EndOf, LaidAll, ConformAll, Writer;
    var wide := Falses(8 * EndOf(d, ts, vs, p));
    EmitAllIsLaid(d, wide, ts, vs, p);
    LaidAllLength(wide, b, ts, vs, p, d.alignOpen, d.alignClose);
  }
}
