/**
  The payload format as the implementations really write and read it.

  A list of types is flattened into tokens and a list of values into leaves. A
  `Dialect` records where one implementation moves its position to a byte
  boundary; it is the only thing on which the three implementations differ.
  `Put` and `Get` are the meaning of writing and reading in a dialect.
 */
module Wire {
  import opened BitOps
  import opened BitString
  import opened Results

  /** A width in bytes, of a numeric primitive type. */
  type width = w: nat | w == 1 || w == 2 || w == 4 || w == 8 witness 1

  datatype Token =
    | Open                            // a struct starts
    | Close                           // a struct ends
    | Bits(n: nat)                    // BitU[n]
    | Prim(w: width)                  // fixed-width number of w bytes
    | List(w: width, blob: bool)      // length-prefixed elements of w bytes; blob for str and bytes

  /** Values are bit patterns here; signs are the business of `Types`. */
  datatype Leaf = Num(x: nat) | Arr(items: seq<nat>)

  datatype Dialect = Dialect(
    alignOpen: bool,      // position moves to a byte boundary where a struct starts
    alignClose: bool,     // ... and where it ends
    realignPrim: bool,    // position after a number is on a byte boundary
    realignList: bool,    // position after a list is on a byte boundary
    rawLength: bool,      // reader advances by the stored length, not by whole elements
    truncates: bool)      // reader cuts a str/bytes short instead of failing at the end of the payload

  const PYTHON_PACK := Dialect(true, false, true, true, false, false)
  const PYTHON_UNPACK := Dialect(true, false, false, true, false, true)
  const EMITTED_C := Dialect(true, true, true, true, true, false)
  const CSHARP_SERIALIZE := Dialect(false, false, true, true, false, false)
  const CSHARP_DESERIALIZE := Dialect(false, false, false, false, false, false)

  /** Writers always leave a number or list on a byte boundary. */
  predicate Writer(d: Dialect) {
    d.realignPrim && d.realignList
  }

  function Align(p: nat): (r: nat)
    ensures p <= r < p + 8 && r % 8 == 0
  {
    if p % 8 == 0 then p else p + 8 - p % 8
  }

  predicate Takes(t: Token) {
    t.Bits? || t.Prim? || t.List?
  }

  predicate Below(items: seq<nat>, bound: nat) {
    forall i :: 0 <= i < |items| ==> items[i] < bound
  }

  predicate Fits(t: Token, l: Leaf) {
    match t
    case Bits(n) => l.Num? && l.x < Pow2(n)
    case Prim(w) => l.Num? && l.x < Pow2(8 * w)
    case List(w, _) => l.Arr? && |Items(w, l.items)| / 8 < 65536 && Below(l.items, Pow2(8 * w))
    case _ => true
  }

  function Rest(t: Token, ls: seq<Leaf>): seq<Leaf> {
    if Takes(t) && ls != [] then ls[1..] else ls
  }

  /** The leaves are exactly what the tokens call for. */
  predicate Typed(ts: seq<Token>, ls: seq<Leaf>) {
    if ts == [] then ls == []
    else (Takes(ts[0]) ==> ls != [] && Fits(ts[0], ls[0])) && Typed(ts[1..], Rest(ts[0], ls))
  }

  /** List elements in big-endian order, one after the other. */
  function Items(w: width, items: seq<nat>): (r: seq<bool>)
    ensures |r| % 8 == 0
  {
    if items == [] then []
    else
      AddWhole(|Items(w, items[1..])|, 8 * w);
      NatBits(items[0], 8 * w) + Items(w, items[1..])
  }

  function Field(t: Token, l: Leaf): (r: seq<bool>)
    requires Takes(t) && Fits(t, l)
    ensures !t.Bits? ==> |r| % 8 == 0
  {
    match t
    case Bits(n) => NatBits(l.x, n)
    case Prim(w) => NatBits(l.x, 8 * w)
    case List(w, _) => NatBits(|Items(w, l.items)| / 8, 16) + Items(w, l.items)
  }

  /** What the first token puts on the wire. */
  function Image(ts: seq<Token>, ls: seq<Leaf>): (r: seq<bool>)
    requires ts != [] && Typed(ts, ls)
    ensures ts[0].Bits? ==> |r| == ts[0].n
    ensures !ts[0].Bits? ==> |r| % 8 == 0
    ensures !Takes(ts[0]) ==> r == []
  {
    if Takes(ts[0]) then Field(ts[0], ls[0]) else []
  }

  /** Where the bits of a token begin. */
  function Start(t: Token, p: nat): nat {
    if t.Prim? || t.List? then Align(p) else p
  }

  /** Position after a token of `len` bits. */
  function Next(d: Dialect, t: Token, p: nat, len: nat): nat {
    match t
    case Open => if d.alignOpen then Align(p) else p
    case Close => if d.alignClose then Align(p) else p
    case Bits(_) => p + len
    case Prim(_) => (if d.realignPrim then Align(p) else p) + len
    case List(_, _) => (if d.realignList then Align(p) else p) + len
  }

  /** Position after all tokens have been written from `p` on. */
  function End(d: Dialect, ts: seq<Token>, ls: seq<Leaf>, p: nat): (e: nat)
    requires Typed(ts, ls)
    ensures p <= e
  {
    if ts == [] then p
    else End(d, ts[1..], Rest(ts[0], ls), Next(d, ts[0], p, |Image(ts, ls)|))
  }

  /** Writes the leaves into bit buffer `b` from bit `p` on. */
  function Put(d: Dialect, b: seq<bool>, ts: seq<Token>, ls: seq<Leaf>, p: nat): (r: seq<bool>)
    requires Writer(d) && Typed(ts, ls) && End(d, ts, ls, p) <= |b|
    ensures |r| == |b|
    decreases |ts|
  {
    if ts == [] then b
    else
      var f := Image(ts, ls);
      Put(d, Splice(b, Start(ts[0], p), f), ts[1..], Rest(ts[0], ls), Next(d, ts[0], p, |f|))
  }

  /** Splits a bit string into numbers of `w` bytes, as far as they are whole. */
  function ReadItems(w: width, b: seq<bool>): (r: seq<nat>) {
    if |b| < 8 * w then [] else [NatOf(b[..8 * w])] + ReadItems(w, b[8 * w..])
  }

  /** Bytes of the whole elements of `w` bytes among `len` bytes. */
  function WholePart(len: nat, w: width): (r: nat)
    ensures r <= len
  {
    len - len % w
  }

  /** Reads one leaf; also the number of bits by which the reader moves on. */
  function ReadLeaf(d: Dialect, b: seq<bool>, t: Token, u: nat): Option<(Leaf, nat)>
    requires Takes(t)
  {
    match t
    case Bits(n) =>
      if n == 0 then Some((Num(0), 0))
      else if u + n > |b| then None
      else Some((Num(NatOf(b[u..u + n])), n))
    case Prim(w) =>
      var s := Align(u);
      if s + 8 * w > |b| then None
      else Some((Num(NatOf(b[s..s + 8 * w])), 8 * w))
    case List(w, blob) =>
      var s := Align(u);
      if s + 16 > |b| then None
      else
        var len := NatOf(b[s..s + 16]);
        var whole := WholePart(len, w);
        var avail := b[s + 16..];
        var step := 16 + 8 * (if d.rawLength then len else whole);
        if 8 * whole <= |avail| then Some((Arr(ReadItems(w, avail[..8 * whole])), step))
        else if blob && d.truncates then Some((Arr(ReadItems(w, avail)), step))
        else None
  }

  /** Reads the leaves from bit `u` on; also the reader's final position. */
  function Get(d: Dialect, b: seq<bool>, ts: seq<Token>, u: nat): Option<(seq<Leaf>, nat)>
    decreases |ts|
  {
    if ts == [] then Some(([], u))
    else if !Takes(ts[0]) then Get(d, b, ts[1..], Next(d, ts[0], u, 0))
    else
      var (l, len) :- ReadLeaf(d, b, ts[0], u);
      var (ls, e) :- Get(d, b, ts[1..], Next(d, ts[0], u, len));
      Some(([l] + ls, e))
  }

  // ---------------------------------------------------------------- Compatibility

  /** `Next` modulo 8: how far past a byte boundary a position is after a token. */
  function Phase(d: Dialect, t: Token, p: nat): nat {
    match t
    case Open => if d.alignOpen then 0 else p
    case Close => if d.alignClose then 0 else p
    case Bits(n) => (p + n) % 8
    case Prim(_) => if d.realignPrim then 0 else p
    case List(_, _) => if d.realignList then 0 else p
  }

  /**
    A check on the types alone: wherever a non-empty bit field starts, writer
    and reader are equally far past a byte boundary.
   */
  predicate Compatible(w: Dialect, r: Dialect, ts: seq<Token>, p: nat, u: nat) {
    ts != [] ==>
      (ts[0].Bits? && ts[0].n > 0 ==> p == u) &&
      Compatible(w, r, ts[1..], Phase(w, ts[0], p), Phase(r, ts[0], u))
  }

  lemma NextPhase(d: Dialect, t: Token, p: nat, len: nat)
    requires if t.Bits? then len == t.n else len % 8 == 0
    ensures Next(d, t, p, len) % 8 == Phase(d, t, p % 8)
  {
    if !t.Bits? {
      AddWhole(p, len);
      AddWhole(Align(p), len);
    }
  }

  lemma AddWhole(p: nat, len: nat)
    requires len % 8 == 0
    ensures (p + len) % 8 == p % 8
  {
    assert p + len == 8 * (p / 8 + len / 8) + p % 8;
  }

  lemma SamePosition(p: nat, u: nat)
    requires Align(p) == Align(u) && p % 8 == u % 8
    ensures p == u
  {
  }

  lemma AlignAdd(p: nat, len: nat)
    requires len % 8 == 0
    ensures Align(p + len) == Align(p) + len
  {
    assert (p + len) % 8 == p % 8;
  }

  lemma AlignNext(d: Dialect, t: Token, p: nat, len: nat)
    requires !t.Bits? && len % 8 == 0
    ensures Align(Next(d, t, p, len)) == if Takes(t) then Align(p) + len else Align(p)
  {
    AlignAdd(p, len);
    AlignAdd(Align(p), len);
  }

  lemma SameByte(w: Dialect, r: Dialect, t: Token, p: nat, u: nat, len: nat)
    requires Align(p) == Align(u)
    requires if t.Bits? then len == t.n && (len > 0 ==> p == u) else len % 8 == 0
    ensures Align(Next(w, t, p, len)) == Align(Next(r, t, u, len))
  {
    if !t.Bits? {
      AlignNext(w, t, p, len);
      AlignNext(r, t, u, len);
    }
  }

  // ---------------------------------------------------------------- Frame

  /** Writing from `p` on changes nothing before `p` and nothing from the end on. */
  lemma {:induction false} PutFrame(d: Dialect, b: seq<bool>, ts: seq<Token>, ls: seq<Leaf>, p: nat)
    requires Writer(d) && Typed(ts, ls) && End(d, ts, ls, p) <= |b|
    ensures Put(d, b, ts, ls, p)[..p] == b[..p]
    ensures Put(d, b, ts, ls, p)[End(d, ts, ls, p)..] == b[End(d, ts, ls, p)..]
    decreases |ts|
  {
    if ts != [] {
      var f := Image(ts, ls);
      var s, q := Start(ts[0], p), Next(d, ts[0], p, |f|);
      var b1 := Splice(b, s, f);
      PutFrame(d, b1, ts[1..], Rest(ts[0], ls), q);
      SpliceFrame(b, s, f, p, q, End(d, ts, ls, p), Put(d, b, ts, ls, p));
    }
  }

  lemma SpliceFrame(b: seq<bool>, s: nat, f: seq<bool>, p: nat, q: nat, e: nat, out: seq<bool>)
    requires p <= s && s + |f| <= q <= e <= |b| == |out|
    requires out[..q] == Splice(b, s, f)[..q] && out[e..] == Splice(b, s, f)[e..]
    ensures out[..p] == b[..p] && out[e..] == b[e..] && out[s..s + |f|] == f
  {
    var b1 := Splice(b, s, f);
    assert out[..p] == out[..q][..p] == b1[..q][..p] == b1[..p];
    assert out[s..s + |f|] == out[..q][s..s + |f|] == b1[s..s + |f|];
  }

  // ---------------------------------------------------------------- Round trip

  lemma {:induction false} ReadItemsOfItems(w: width, items: seq<nat>)
    requires Below(items, Pow2(8 * w))
    ensures ReadItems(w, Items(w, items)) == items
  {
    if items != [] {
      var s := Items(w, items);
      assert s[..8 * w] == NatBits(items[0], 8 * w);
      assert s[8 * w..] == Items(w, items[1..]);
      NatOfNatBits(items[0], 8 * w);
      ReadItemsOfItems(w, items[1..]);
    }
  }

  lemma AddMod(x: nat, w: width)
    ensures (x + w) % w == x % w
  {
    if w == 2 || w == 4 || w == 8 {
    }
  }

  /** A list of elements takes a whole number of element widths. */
  lemma {:induction false} ItemsWhole(w: width, items: seq<nat>)
    ensures |Items(w, items)| / 8 % w == 0
    ensures |Items(w, items)| / 8 == |items| * w
  {
    if items != [] {
      ItemsWhole(w, items[1..]);
      assert |Items(w, items)| / 8 == |Items(w, items[1..])| / 8 + w;
      AddMod(|Items(w, items[1..])| / 8, w);
    }
  }

  /** Reading back one field that sits where the reader looks for it. */
  lemma ReadLeafOfField(d: Dialect, b: seq<bool>, t: Token, l: Leaf, u: nat)
    requires Takes(t) && Fits(t, l)
    requires Start(t, u) + |Field(t, l)| <= |b|
    requires b[Start(t, u)..Start(t, u) + |Field(t, l)|] == Field(t, l)
    ensures ReadLeaf(d, b, t, u) == Some((l, |Field(t, l)|))
  {
    hide NatOf, NatBits, ReadItems, Items, Pow2, Align;
    match t
    case Bits(n) =>
      NatOfNatBits(l.x, n);
      if n == 0 {
        OnlyZero(l.x);
      }
    case Prim(w) =>
      NatOfNatBits(l.x, 8 * w);
    case List(w, _) =>
      ReadListOfField(d, b, t, l, u);
  }

  lemma OnlyZero(x: nat)
    requires x < Pow2(0)
    ensures x == 0
  {
  }

  lemma ReadListOfField(d: Dialect, b: seq<bool>, t: Token, l: Leaf, u: nat)
    requires t.List? && Fits(t, l)
    requires Align(u) + |Field(t, l)| <= |b| && b[Align(u)..Align(u) + |Field(t, l)|] == Field(t, l)
    ensures ReadLeaf(d, b, t, u) == Some((l, |Field(t, l)|))
  {
    hide NatOf, NatBits, ReadItems, Items, Pow2, Align;
    ReadListField(b, t, l, Align(u));
  }

  lemma ReadListField(b: seq<bool>, t: Token, l: Leaf, s: nat)
    requires t.List? && Fits(t, l)
    requires s + |Field(t, l)| <= |b| && b[s..s + |Field(t, l)|] == Field(t, l)
    ensures NatOf(b[s..s + 16]) == |Items(t.w, l.items)| / 8
    ensures |Items(t.w, l.items)| / 8 % t.w == 0
    ensures ReadItems(t.w, b[s + 16..][..|Items(t.w, l.items)|]) == l.items
  {
    var f, it := Field(t, l), Items(t.w, l.items);
    Pow2Add(8, 8);
    assert Pow2(8) == 256;
    NatOfNatBits(|it| / 8, 16);
    assert b[s..s + 16] == f[..16] == NatBits(|it| / 8, 16);
    ItemsWhole(t.w, l.items);
    assert b[s + 16..][..|it|] == b[s..s + |f|][16..] == it;
    ReadItemsOfItems(t.w, l.items);
  }

  lemma ImageFits(w: Dialect, ts: seq<Token>, ls: seq<Leaf>, p: nat)
    requires Writer(w) && ts != [] && Typed(ts, ls)
    ensures Start(ts[0], p) + |Image(ts, ls)| <= Next(w, ts[0], p, |Image(ts, ls)|) <= End(w, ts, ls, p)
  {
  }

  lemma StartsLater(t: Token, p: nat)
    ensures p <= Start(t, p)
  {
  }

  /** The first field is still in place after everything behind it has been written. */
  lemma ImageIntact(w: Dialect, b: seq<bool>, ts: seq<Token>, ls: seq<Leaf>, p: nat)
    requires Writer(w) && ts != [] && Typed(ts, ls) && End(w, ts, ls, p) <= |b|
    ensures var s, f := Start(ts[0], p), Image(ts, ls);
            s + |f| <= End(w, ts, ls, p) && Put(w, b, ts, ls, p)[s..s + |f|] == f
  {
    hide Image, Next, Start, Splice;
    var f := Image(ts, ls);
    var s, q := Start(ts[0], p), Next(w, ts[0], p, |f|);
    ImageFits(w, ts, ls, p);
    StartsLater(ts[0], p);
    PutFrame(w, Splice(b, s, f), ts[1..], Rest(ts[0], ls), q);
    SpliceFrame(b, s, f, p, q, End(w, ts, ls, p), Put(w, b, ts, ls, p));
  }

  /** ... in every buffer that starts with the written bits. */
  lemma HeadIntact(w: Dialect, b: seq<bool>, ts: seq<Token>, ls: seq<Leaf>, p: nat, b': seq<bool>)
    requires Writer(w) && ts != [] && Typed(ts, ls) && End(w, ts, ls, p) <= |b|
    requires End(w, ts, ls, p) <= |b'|
    requires b'[..End(w, ts, ls, p)] == Put(w, b, ts, ls, p)[..End(w, ts, ls, p)]
    ensures var s, f := Start(ts[0], p), Image(ts, ls); s + |f| <= |b'| && b'[s..s + |f|] == f
  {
    hide Image, Put, Start, Typed, End;
    ImageIntact(w, b, ts, ls, p);
    PrefixSlice(b', Put(w, b, ts, ls, p), End(w, ts, ls, p), Start(ts[0], p), |Image(ts, ls)|);
  }

  lemma PrefixSlice(a: seq<bool>, b: seq<bool>, e: nat, s: nat, n: nat)
    requires s + n <= e <= |a| && e <= |b| && a[..e] == b[..e]
    ensures a[s..s + n] == b[s..s + n]
  {
    SliceOfSlice(a, 0, e, s, s + n);
    SliceOfSlice(b, 0, e, s, s + n);
  }

  /** The first leaf, read by a reader that stands in the same byte. */
  lemma ReadHead(r: Dialect, ts: seq<Token>, ls: seq<Leaf>, p: nat, u: nat, b: seq<bool>)
    requires ts != [] && Typed(ts, ls) && Takes(ts[0])
    requires Align(p) == Align(u) && (ts[0].Bits? && ts[0].n > 0 ==> p == u)
    requires var s, f := Start(ts[0], p), Image(ts, ls); s + |f| <= |b| && b[s..s + |f|] == f
    ensures ReadLeaf(r, b, ts[0], u) == Some((ls[0], |Image(ts, ls)|))
  {
    if ts[0].Bits? && ts[0].n == 0 {
      assert ls[0] == Num(0);
    } else {
      ReadLeafOfField(r, b, ts[0], ls[0], u);
    }
  }

  lemma GetCons(d: Dialect, b: seq<bool>, ts: seq<Token>, u: nat, l: Leaf, len: nat)
    requires ts != [] && Takes(ts[0]) && ReadLeaf(d, b, ts[0], u) == Some((l, len))
    ensures var g := Get(d, b, ts[1..], Next(d, ts[0], u, len));
            Get(d, b, ts, u) == if g.Some? then Some(([l] + g.value.0, g.value.1)) else None
  {
  }

  /** Writer and reader stay in the same byte over a token they agree on. */
  lemma InStep(w: Dialect, r: Dialect, ts: seq<Token>, p: nat, u: nat, len: nat)
    requires ts != [] && (if ts[0].Bits? then len == ts[0].n else len % 8 == 0)
    requires Align(p) == Align(u) && Compatible(w, r, ts, p % 8, u % 8)
    ensures ts[0].Bits? && ts[0].n > 0 ==> p == u
    ensures var q, v := Next(w, ts[0], p, len), Next(r, ts[0], u, len);
            Align(q) == Align(v) && Compatible(w, r, ts[1..], q % 8, v % 8)
  {
    NextPhase(w, ts[0], p, len);
    NextPhase(r, ts[0], u, len);
    if ts[0].Bits? && ts[0].n > 0 {
      SamePosition(p, u);
    }
    SameByte(w, r, ts[0], p, u, len);
  }

  /**
    Interoperability, one way: whatever one dialect wrote, a compatible dialect
    reads back, from any buffer that starts with the written bits.
   */
  lemma {:induction false} RoundTrip(w: Dialect, r: Dialect, b: seq<bool>, ts: seq<Token>, ls: seq<Leaf>,
                                     p: nat, u: nat, b': seq<bool>)
    requires Writer(w) && Typed(ts, ls) && End(w, ts, ls, p) <= |b|
    requires Align(p) == Align(u) && Compatible(w, r, ts, p % 8, u % 8)
    requires End(w, ts, ls, p) <= |b'|
    requires b'[..End(w, ts, ls, p)] == Put(w, b, ts, ls, p)[..End(w, ts, ls, p)]
    ensures Get(r, b', ts, u).Some?
    ensures Get(r, b', ts, u).value.0 == ls
    ensures Align(Get(r, b', ts, u).value.1) == Align(End(w, ts, ls, p))
    decreases |ts|
  {
    hide Splice, Image, Fits, ReadLeaf, Compatible, Align, Next, Start;
    if ts != [] {
      var t, f := ts[0], Image(ts, ls);
      InStep(w, r, ts, p, u, |f|);
      ImageFits(w, ts, ls, p);
      RoundTrip(w, r, Splice(b, Start(t, p), f), ts[1..], Rest(t, ls),
                Next(w, t, p, |f|), Next(r, t, u, |f|), b');
      if Takes(t) {
        HeadIntact(w, b, ts, ls, p, b');
        ReadHead(r, ts, ls, p, u, b');
        GetCons(r, b', ts, u, ls[0], |f|);
      }
    }
  }

  // ---------------------------------------------------------------- Necessity

  /** The all-zero message: no message of these types is shorter. */
  function Zeros(ts: seq<Token>): (ls: seq<Leaf>)
    ensures Typed(ts, ls)
  {
    if ts == [] then []
    else
      match ts[0]
      case Bits(_) => [Num(0)] + Zeros(ts[1..])
      case Prim(_) => [Num(0)] + Zeros(ts[1..])
      case List(_, _) => [Arr([])] + Zeros(ts[1..])
      case _ => Zeros(ts[1..])
  }

  predicate DifferOnlyAt(a: seq<bool>, b: seq<bool>, k: nat) {
    |a| == |b| && forall i :: 0 <= i < |a| && i != k ==> a[i] == b[i]
  }

  lemma {:induction false} PutPointwise(d: Dialect, b1: seq<bool>, b2: seq<bool>, ts: seq<Token>, ls: seq<Leaf>,
                                        p: nat, k: nat)
    requires Writer(d) && Typed(ts, ls) && End(d, ts, ls, p) <= |b1|
    requires DifferOnlyAt(b1, b2, k)
    ensures DifferOnlyAt(Put(d, b1, ts, ls, p), Put(d, b2, ts, ls, p), k)
    decreases |ts|
  {
    if ts != [] {
      var f, s := Image(ts, ls), Start(ts[0], p);
      PutPointwise(d, Splice(b1, s, f), Splice(b2, s, f), ts[1..], Rest(ts[0], ls), Next(d, ts[0], p, |f|), k);
    }
  }

  lemma {:induction false} TopBitOnly(n: nat, i: nat)
    requires n > 0 && i < n
    ensures Pow2(n - 1) < Pow2(n)
    ensures TestBit(Pow2(n - 1), i) == (i == n - 1)
  {
    ShlOne(n - 1);
    TestBitShl(1, n - 1, i);
    if i == n - 1 {
      assert TestBit(1, 0);
    }
  }

  /** Reading `n` bits at `u` can only give `x` when bit `u` is the top bit of `x`. */
  lemma ReadTopBit(b: seq<bool>, u: nat, n: nat)
    requires n > 0 && u + n <= |b|
    ensures b[u] == TestBit(NatOf(b[u..u + n]), n - 1)
  {
    NatBitsNatOf(b[u..u + n]);
    assert b[u..u + n][0] == NatBits(NatOf(b[u..u + n]), n)[0];
  }

  /** The all-zero message with the top bit of its first field set. */
  function TopBitSet(ts: seq<Token>): (ls: seq<Leaf>)
    requires ts != [] && ts[0].Bits? && ts[0].n > 0
    ensures Typed(ts, ls)
  {
    TopBitOnly(ts[0].n, 0);
    [Num(Pow2(ts[0].n - 1))] + Zeros(ts[1..])
  }

  lemma TopBitSplice(b: seq<bool>, p: nat, n: nat)
    requires n > 0 && p + n <= |b|
    ensures DifferOnlyAt(Splice(b, p, NatBits(0, n)), Splice(b, p, NatBits(Pow2(n - 1), n)), p)
  {
    hide TestBit, Pow2;
    var b0, b1 := Splice(b, p, NatBits(0, n)), Splice(b, p, NatBits(Pow2(n - 1), n));
    forall i | 0 <= i < |b| && i != p ensures b0[i] == b1[i] {
      if p < i < p + n {
        TopBitOnly(n, n - 1 - (i - p));
        ZeroBits(n - 1 - (i - p));
      }
    }
  }

  /** These two messages differ on the wire in a single bit. */
  lemma OneBitApart(w: Dialect, b: seq<bool>, ts: seq<Token>, p: nat)
    requires Writer(w) && ts != [] && ts[0].Bits? && ts[0].n > 0
    requires End(w, ts, Zeros(ts), p) <= |b|
    ensures End(w, ts, TopBitSet(ts), p) == End(w, ts, Zeros(ts), p)
    ensures DifferOnlyAt(Put(w, b, ts, Zeros(ts), p), Put(w, b, ts, TopBitSet(ts), p), p)
  {
    hide TestBit, Pow2, Align, DifferOnlyAt, Splice, NatBits;
    var n := ts[0].n;
    var b0, b1 := Splice(b, p, NatBits(0, n)), Splice(b, p, NatBits(Pow2(n - 1), n));
    TopBitSplice(b, p, n);
    assert ts[0] == Bits(n);
    PutPointwise(w, b0, b1, ts[1..], Zeros(ts[1..]), p + n, p);
  }

  /** A bit field that is read as `x` has the top bit of `x` where the reader stands. */
  lemma FieldTopBit(d: Dialect, b: seq<bool>, ts: seq<Token>, u: nat)
    requires ts != [] && ts[0].Bits? && ts[0].n > 0 && Get(d, b, ts, u).Some?
    ensures u < |b|
    ensures var ls := Get(d, b, ts, u).value.0; ls != [] && ls[0].Num? && b[u] == TestBit(ls[0].x, ts[0].n - 1)
  {
    ReadTopBit(b, u, ts[0].n);
  }

  /** A reader that stands elsewhere misreads one of the two. */
  lemma FirstFieldClash(r: Dialect, out0: seq<bool>, out1: seq<bool>, ts: seq<Token>, p: nat, u: nat)
    requires ts != [] && ts[0].Bits? && ts[0].n > 0 && p != u
    requires DifferOnlyAt(out0, out1, p)
    ensures var g0, g1 := Get(r, out0, ts, u), Get(r, out1, ts, u);
            !(g0.Some? && g0.value.0 == Zeros(ts) && g1.Some? && g1.value.0 == TopBitSet(ts))
  {
    if Get(r, out0, ts, u).Some? && Get(r, out1, ts, u).Some? {
      FieldTopBit(r, out0, ts, u);
      FieldTopBit(r, out1, ts, u);
      ZeroBits(ts[0].n - 1);
      TopBitOnly(ts[0].n, ts[0].n - 1);
    }
  }

  /**
    Interoperability, the other way: when the check fails some message is not
    read back, whatever the buffer held before.
   */
  lemma {:induction false} Clash(w: Dialect, r: Dialect, b: seq<bool>, ts: seq<Token>, p: nat, u: nat)
    returns (ls: seq<Leaf>)
    requires Writer(w) && End(w, ts, Zeros(ts), p) <= |b|
    requires Align(p) == Align(u) && !Compatible(w, r, ts, p % 8, u % 8)
    ensures Typed(ts, ls) && End(w, ts, ls, p) == End(w, ts, Zeros(ts), p)
    ensures var g := Get(r, Put(w, b, ts, ls, p), ts, u); g.Some? ==> g.value.0 != ls
    decreases |ts|
  {
    hide Splice, ReadLeaf, Align, Next, Start, Field, Phase;
    if ts[0].Bits? && ts[0].n > 0 && p != u {
      OneBitApart(w, b, ts, p);
      var out0 := Put(w, b, ts, Zeros(ts), p);
      FirstFieldClash(r, out0, Put(w, b, ts, TopBitSet(ts), p), ts, p, u);
      var g := Get(r, out0, ts, u);
      ls := if g.Some? && g.value.0 == Zeros(ts) then TopBitSet(ts) else Zeros(ts);
    } else {
      var t, zs := ts[0], Zeros(ts);
      var f := Image(ts, zs);
      NextPhase(w, t, p, |f|);
      NextPhase(r, t, u, |f|);
      SameByte(w, r, t, p, u, |f|);
      ImageFits(w, ts, zs, p);
      var tail := Clash(w, r, Splice(b, Start(t, p), f), ts[1..], Next(w, t, p, |f|), Next(r, t, u, |f|));
      ls := if Takes(t) then [zs[0]] + tail else tail;
      assert Rest(t, ls) == tail;
      if Takes(t) {
        var out := Put(w, b, ts, ls, p);
        HeadIntact(w, b, ts, ls, p, out);
        ReadHead(r, ts, ls, p, u, out);
        GetCons(r, out, ts, u, ls[0], |f|);
      }
    }
  }

  /** Every message of these types that fits the buffer is read back. */
  ghost predicate Interoperate(w: Dialect, r: Dialect, b: seq<bool>, ts: seq<Token>, p: nat, u: nat)
    requires Writer(w)
  {
    forall ls :: Typed(ts, ls) && End(w, ts, ls, p) <= |b| ==>
      var g := Get(r, Put(w, b, ts, ls, p), ts, u); g.Some? && g.value.0 == ls
  }

  /**
    The exact condition. For every writer and reader dialect and every list of
    types with at least one message that fits the buffer, reading undoes writing
    for all messages if and only if the types pass the static check.
   */
  lemma InteroperateIff(w: Dialect, r: Dialect, b: seq<bool>, ts: seq<Token>, p: nat, u: nat)
    requires Writer(w) && Align(p) == Align(u) && End(w, ts, Zeros(ts), p) <= |b|
    ensures Interoperate(w, r, b, ts, p, u) <==> Compatible(w, r, ts, p % 8, u % 8)
  {
    if Compatible(w, r, ts, p % 8, u % 8) {
      forall ls | Typed(ts, ls) && End(w, ts, ls, p) <= |b|
        ensures var g := Get(r, Put(w, b, ts, ls, p), ts, u); g.Some? && g.value.0 == ls
      {
        RoundTrip(w, r, b, ts, ls, p, u, Put(w, b, ts, ls, p));
      }
    } else {
      var ls := Clash(w, r, b, ts, p, u);
    }
  }

  // ---------------------------------------------------------------- Composition

  lemma TypedStep(ts: seq<Token>, ls: seq<Leaf>)
    requires ts != []
    ensures Typed(ts, ls) <==>
            (Takes(ts[0]) ==> ls != [] && Fits(ts[0], ls[0])) && Typed(ts[1..], Rest(ts[0], ls))
  {
  }

  lemma RestAppend(t: Token, ls: seq<Leaf>, ms: seq<Leaf>)
    requires Takes(t) ==> ls != []
    ensures Rest(t, ls + ms) == Rest(t, ls) + ms && (ls != [] ==> (ls + ms)[0] == ls[0])
  {
  }

  lemma {:induction false} TypedAppend(ts: seq<Token>, us: seq<Token>, ls: seq<Leaf>, ms: seq<Leaf>)
    requires Typed(ts, ls) && Typed(us, ms)
    ensures Typed(ts + us, ls + ms)
    decreases |ts|
  {
    if ts == [] {
      assert ts + us == us && ls + ms == ms;
    } else {
      hide Typed, Takes, Fits, Rest;
      TypedStep(ts, ls);
      TypedAppend(ts[1..], us, Rest(ts[0], ls), ms);
      assert (ts + us)[0] == ts[0] && (ts + us)[1..] == ts[1..] + us;
      RestAppend(ts[0], ls, ms);
      TypedStep(ts + us, ls + ms);
    }
  }

  lemma HeadOfAppend(ts: seq<Token>, us: seq<Token>, ls: seq<Leaf>, ms: seq<Leaf>)
    requires ts != [] && Typed(ts, ls) && Typed(us, ms)
    ensures (ts + us)[0] == ts[0] && (ts + us)[1..] == ts[1..] + us
    ensures Rest(ts[0], ls + ms) == Rest(ts[0], ls) + ms
    ensures Typed(ts + us, ls + ms) && Image(ts + us, ls + ms) == Image(ts, ls)
  {
    hide Typed, Fits, Rest;
    TypedStep(ts, ls);
    TypedAppend(ts, us, ls, ms);
    RestAppend(ts[0], ls, ms);
  }

  lemma {:induction false} EndAppend(d: Dialect, ts: seq<Token>, us: seq<Token>, ls: seq<Leaf>, ms: seq<Leaf>, p: nat)
    requires Typed(ts, ls) && Typed(us, ms)
    ensures Typed(ts + us, ls + ms)
    ensures End(d, ts + us, ls + ms, p) == End(d, us, ms, End(d, ts, ls, p))
    decreases |ts|
  {
    if ts == [] {
      assert ts + us == us && ls + ms == ms;
    } else {
      HeadOfAppend(ts, us, ls, ms);
      EndAppend(d, ts[1..], us, Rest(ts[0], ls), ms, Next(d, ts[0], p, |Image(ts, ls)|));
    }
  }

  /** Writing two messages one after the other is writing their concatenation. */
  lemma {:induction false} PutAppend(d: Dialect, b: seq<bool>, ts: seq<Token>, us: seq<Token>,
                                     ls: seq<Leaf>, ms: seq<Leaf>, p: nat)
    requires Writer(d) && Typed(ts, ls) && Typed(us, ms)
    requires End(d, us, ms, End(d, ts, ls, p)) <= |b|
    ensures Typed(ts + us, ls + ms) && End(d, ts + us, ls + ms, p) <= |b|
    ensures Put(d, b, ts + us, ls + ms, p) == Put(d, Put(d, b, ts, ls, p), us, ms, End(d, ts, ls, p))
    decreases |ts|
  {
    EndAppend(d, ts, us, ls, ms, p);
    if ts == [] {
      assert ts + us == us && ls + ms == ms;
    } else {
      var f := Image(ts, ls);
      HeadOfAppend(ts, us, ls, ms);
      PutAppend(d, Splice(b, Start(ts[0], p), f), ts[1..], us, Rest(ts[0], ls), ms, Next(d, ts[0], p, |f|));
    }
  }

  /** Reading a concatenation is reading its parts one after the other. */
  lemma {:induction false} GetAppend(d: Dialect, b: seq<bool>, ts: seq<Token>, us: seq<Token>, u: nat)
    ensures Get(d, b, ts + us, u) ==
            (var g := Get(d, b, ts, u);
             if g.None? then None
             else
               var h := Get(d, b, us, g.value.1);
               if h.None? then None else Some((g.value.0 + h.value.0, h.value.1)))
    decreases |ts|
  {
    if ts == [] {
      assert ts + us == us;
      var h := Get(d, b, us, u);
      if h.Some? {
        assert [] + h.value.0 == h.value.0;
      }
    } else {
      assert (ts + us)[1..] == ts[1..] + us;
      if !Takes(ts[0]) {
        GetAppend(d, b, ts[1..], us, Next(d, ts[0], u, 0));
      } else {
        var l := ReadLeaf(d, b, ts[0], u);
        if l.Some? {
          var v := Next(d, ts[0], u, l.value.1);
          GetAppend(d, b, ts[1..], us, v);
          var g := Get(d, b, ts[1..], v);
          if g.Some? {
            var h := Get(d, b, us, g.value.1);
            if h.Some? {
              assert [l.value.0] + (g.value.0 + h.value.0) == ([l.value.0] + g.value.0) + h.value.0;
            }
          }
        }
      }
    }
  }

  lemma {:induction false} ItemsAppend(w: width, xs: seq<nat>, ys: seq<nat>)
    ensures Items(w, xs + ys) == Items(w, xs) + Items(w, ys)
  {
    if xs == [] {
      assert xs + ys == ys;
    } else {
      assert (xs + ys)[1..] == xs[1..] + ys;
      ItemsAppend(w, xs[1..], ys);
    }
  }

  /** The format does not depend on where in memory a message starts, as long as it is a byte boundary. */
  lemma NextShift(d: Dialect, t: Token, k: nat, p: nat, len: nat)
    requires k % 8 == 0
    ensures Next(d, t, k + p, len) == k + Next(d, t, p, len) && Start(t, k + p) == k + Start(t, p)
  {
    hide Align;
    AlignAdd(p, k);
  }

  lemma {:induction false} EndShift(d: Dialect, ts: seq<Token>, ls: seq<Leaf>, k: nat, p: nat)
    requires Typed(ts, ls) && k % 8 == 0
    ensures End(d, ts, ls, k + p) == k + End(d, ts, ls, p)
    decreases |ts|
  {
    hide Image, Next, Rest;
    if ts != [] {
      NextShift(d, ts[0], k, p, |Image(ts, ls)|);
      EndShift(d, ts[1..], Rest(ts[0], ls), k, Next(d, ts[0], p, |Image(ts, ls)|));
    }
  }

  lemma SpliceShift(a: seq<bool>, b: seq<bool>, z: seq<bool>, off: nat, f: seq<bool>)
    requires off + |f| <= |b|
    ensures Splice(a + b + z, |a| + off, f) == a + Splice(b, off, f) + z
  {
  }

  lemma {:induction false} PutWindow(d: Dialect, a: seq<bool>, b: seq<bool>, z: seq<bool>, ts: seq<Token>,
                                     ls: seq<Leaf>, p: nat)
    requires Writer(d) && Typed(ts, ls) && |a| % 8 == 0 && End(d, ts, ls, p) <= |b|
    ensures End(d, ts, ls, |a| + p) == |a| + End(d, ts, ls, p)
    ensures Put(d, a + b + z, ts, ls, |a| + p) == a + Put(d, b, ts, ls, p) + z
    decreases |ts|
  {
    hide Image, Splice, Next, Start, Rest;
    EndShift(d, ts, ls, |a|, p);
    if ts != [] {
      var f := Image(ts, ls);
      NextShift(d, ts[0], |a|, p, |f|);
      ImageFits(d, ts, ls, p);
      SpliceShift(a, b, z, Start(ts[0], p), f);
      PutWindow(d, a, Splice(b, Start(ts[0], p), f), z, ts[1..], Rest(ts[0], ls), Next(d, ts[0], p, |f|));
    }
  }

  lemma SliceOfSlice(b: seq<bool>, s: nat, e: nat, i: nat, j: nat)
    requires i <= j && s + j <= e <= |b|
    ensures b[s..e][i..j] == b[s + i..s + j]
  {
    var x, y := b[s..e][i..j], b[s + i..s + j];
    assert |x| == |y|;
    assert forall k :: 0 <= k < |x| ==> x[k] == b[s..e][i + k] == y[k];
  }

  /** A field that is read from a window of a buffer is read alike from the whole buffer. */
  lemma ReadLeafWindow(d: Dialect, b: seq<bool>, s: nat, e: nat, t: Token, u: nat)
    requires !d.truncates && Takes(t) && s % 8 == 0 && s <= e <= |b| && ReadLeaf(d, b[s..e], t, u).Some?
    ensures ReadLeaf(d, b, t, s + u) == ReadLeaf(d, b[s..e], t, u)
    ensures Next(d, t, s + u, ReadLeaf(d, b[s..e], t, u).value.1) ==
            s + Next(d, t, u, ReadLeaf(d, b[s..e], t, u).value.1)
  {
    hide NatOf, ReadItems, Align;
    AlignAdd(u, s);
    match t
    case Bits(n) =>
      if n > 0 {
        SliceOfSlice(b, s, e, u, u + n);
      }
    case Prim(w) =>
      SliceOfSlice(b, s, e, Align(u), Align(u) + 8 * w);
    case List(w, _) =>
      ReadListWindow(d, b, s, e, t, u);
  }

  lemma ReadListWindow(d: Dialect, b: seq<bool>, s: nat, e: nat, t: Token, u: nat)
    requires !d.truncates && t.List? && s <= e <= |b|
    requires ReadLeaf(d, b[s..e], t, u).Some? && Align(s + u) == s + Align(u)
    ensures ReadLeaf(d, b, t, s + u) == ReadLeaf(d, b[s..e], t, u)
  {
    hide NatOf, ReadItems, Align, WholePart;
    var k := Align(u);
    SliceOfSlice(b, s, e, k, k + 16);
    TailOfSlice(b, s, e, k + 16, 8 * WholePart(NatOf(b[s..e][k..k + 16]), t.w));
  }

  lemma TailOfSlice(b: seq<bool>, s: nat, e: nat, k: nat, n: nat)
    requires s + k + n <= e <= |b|
    ensures b[s..e][k..][..n] == b[s + k..][..n]
  {
  }

  /**
    Two writers that are equally far past a byte boundary at every bit field
    write the same bits, whatever the buffer held, and end in the same byte.
   */
  lemma {:induction false} WritersAgree(w: Dialect, w': Dialect, b: seq<bool>, ts: seq<Token>, ls: seq<Leaf>, p: nat,
                                        u: nat)
    requires Writer(w) && Writer(w') && Typed(ts, ls) && Align(p) == Align(u) && Compatible(w, w', ts, p % 8, u % 8)
    requires |b| % 8 == 0 && End(w, ts, ls, p) <= |b|
    ensures Align(End(w, ts, ls, p)) == Align(End(w', ts, ls, u)) <= |b|
    ensures Put(w, b, ts, ls, p) == Put(w', b, ts, ls, u)
    decreases |ts|
  {
    hide Image, Compatible, Align, Next, Splice, Start, Rest;
    if ts == [] {
      WholeBytesFit(p, |b|);
    } else {
      var t, f := ts[0], Image(ts, ls);
      InStep(w, w', ts, p, u, |f|);
      ImageFits(w, ts, ls, p);
      SpliceAgree(b, t, f, p, u);
      WritersAgree(w, w', Splice(b, Start(t, p), f), ts[1..], Rest(t, ls), Next(w, t, p, |f|), Next(w', t, u, |f|));
    }
  }

  lemma WholeBytesFit(p: nat, n: nat)
    requires p <= n && n % 8 == 0
    ensures Align(p) <= n
  {
  }

  lemma SpliceAgree(b: seq<bool>, t: Token, f: seq<bool>, p: nat, u: nat)
    requires Align(p) == Align(u) && Start(t, p) + |f| <= |b| && |b| % 8 == 0
    requires (t.Bits? ==> |f| == t.n && (t.n > 0 ==> p == u)) && (!Takes(t) ==> f == [])
    ensures Start(t, u) + |f| <= |b| && Splice(b, Start(t, p), f) == Splice(b, Start(t, u), f)
  {
    if f == [] {
      WholeBytesFit(Start(t, p), |b|);
    }
  }
}
