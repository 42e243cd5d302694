/**
  What the abstract writer and reader come to on bytes: numbers in big-endian
  order, lists with a two-byte length, and the loops over list elements.
 */
module ByteLevel {
  import opened BitOps
  import opened BitString
  import opened BitFields
  import opened Memory
  import opened Results
  import opened Wire
  import opened Types
  import opened Interop

  /** The bits of a list with its length prefix. */
  function ListImage(k: Num, xs: seq<int>): (r: seq<bool>)
    requires AllInRange(k, xs)
    ensures |r| >= 16 && |r| % 8 == 0
  {
    var it := Items(Width(k), Patterns(k, xs));
    NatBits(|it| / 8, 16) + it
  }

  lemma OneMoreItem(k: Num, xs: seq<int>, i: nat)
    requires i < |xs| && AllInRange(k, xs[..i]) && InRange(k, xs[i])
    ensures AllInRange(k, xs[..i + 1])
    ensures Items(Width(k), Patterns(k, xs[..i + 1])) ==
            Items(Width(k), Patterns(k, xs[..i])) + NatBits(Pattern(k, xs[i]), 8 * Width(k))
  {
    assert xs[..i + 1] == xs[..i] + [xs[i]];
    var x := Pattern(k, xs[i]);
    assert Patterns(k, xs[..i + 1]) == Patterns(k, xs[..i]) + [x];
    ItemsAppend(Width(k), Patterns(k, xs[..i]), [x]);
    assert [x][1..] == [];
    assert NatBits(x, 8 * Width(k)) + [] == NatBits(x, 8 * Width(k));
  }

  /** After `i` elements have been stored from byte `at` on. */
  ghost predicate ItemsStored(before: seq<bool>, now: seq<byte>, at: nat, k: Num, xs: seq<int>, i: nat, offset: nat) {
    && i <= |xs| && AllInRange(k, xs[..i])
    && 8 * offset == 8 * at + |Items(Width(k), Patterns(k, xs[..i]))| <= |before|
    && BitsOf(now) == Splice(before, 8 * at, Items(Width(k), Patterns(k, xs[..i])))
  }

  lemma NoItems(buf: seq<byte>, at: nat, k: Num, xs: seq<int>)
    requires at <= |buf|
    ensures ItemsStored(BitsOf(buf), buf, at, k, xs, 0, at)
  {
    hide BitsOf;
    assert xs[..0] == [];
    assert Splice(BitsOf(buf), 8 * at, []) == BitsOf(buf);
  }

  lemma ItemsRound(before: seq<bool>, was: seq<byte>, now: seq<byte>, at: nat, k: Num, xs: seq<int>, i: nat,
                   offset: nat)
    requires ItemsStored(before, was, at, k, xs, i, offset) && i < |xs| && InRange(k, xs[i])
    requires 8 * (offset + Width(k)) <= |before|
    requires BitsOf(now) == Splice(BitsOf(was), 8 * offset, NatBits(Pattern(k, xs[i]), 8 * Width(k)))
    ensures ItemsStored(before, now, at, k, xs, i + 1, offset + Width(k))
  {
    OneMoreItem(k, xs, i);
    SpliceAgain(before, 8 * at, Items(Width(k), Patterns(k, xs[..i])), NatBits(Pattern(k, xs[i]), 8 * Width(k)));
  }

  lemma ItemsOfPrefix(k: Num, xs: seq<int>, i: nat)
    requires i < |xs| && AllInRange(k, xs)
    ensures |Items(Width(k), Patterns(k, xs[..i]))| + 8 * Width(k) <= |Items(Width(k), Patterns(k, xs))|
  {
    var a, z := Patterns(k, xs[..i]), Patterns(k, xs[i..]);
    assert Patterns(k, xs) == a + z;
    ItemsAppend(Width(k), a, z);
  }

  lemma U16Range(n: nat)
    ensures InRange(U16, n) <==> n < 65536
    ensures n < 65536 ==> Pattern(U16, n) == n
  {
    Pow2Add(8, 8);
    assert Pow2(8) == 256;
    assert Pow2(16) == 2 * Pow2(15);
  }

  /** The length prefix that `pack_payload` computes is the length of the elements. */
  lemma PrefixIsLength(k: Num, xs: seq<int>)
    requires AllInRange(k, xs)
    ensures |xs| * Width(k) == |Items(Width(k), Patterns(k, xs))| / 8
  {
    ItemsWhole(Width(k), Patterns(k, xs));
  }

  lemma ListSpliced(before: seq<bool>, mid: seq<bool>, after: seq<bool>, at: nat, k: Num, xs: seq<int>, length: nat)
    requires AllInRange(k, xs) && length == |Items(Width(k), Patterns(k, xs))| / 8
    requires 8 * at + |ListImage(k, xs)| <= |before|
    requires mid == Splice(before, 8 * at, NatBits(length, 16))
    requires after == Splice(mid, 8 * (at + 2), Items(Width(k), Patterns(k, xs)))
    ensures after == Splice(before, 8 * at, ListImage(k, xs))
  {
    SpliceAgain(before, 8 * at, NatBits(length, 16), Items(Width(k), Patterns(k, xs)));
  }

  lemma EmitNumber(d: Dialect, b: seq<bool>, k: Num, x: int, p: nat)
    requires Writer(d)
    ensures EmitOne(d, b, TNum(k), VNum(x), p) ==
            if InRange(k, x) && Align(p) + 8 * Width(k) <= |b|
            then Some((Splice(b, Align(p), NatBits(Pattern(k, x), 8 * Width(k))), Align(p) + 8 * Width(k)))
            else None
  {
    if InRange(k, x) {
      SingleToken(d, b, Prim(Width(k)), Leaf.Num(Pattern(k, x)), p);
    }
  }

  lemma EmitBits(d: Dialect, b: seq<bool>, n: nat, x: int, p: nat)
    requires Writer(d)
    ensures EmitOne(d, b, TBit(n), VNum(NatOf(NatBits(x, n))), p) ==
            if p + n <= |b| then Some((Splice(b, p, NatBits(x, n)), p + n)) else None
  {
    NatOfBound(NatBits(x, n));
    NatBitsNatOf(NatBits(x, n));
    SingleToken(d, b, Bits(n), Leaf.Num(NatOf(NatBits(x, n))), p);
  }

  lemma EmitList(d: Dialect, b: seq<bool>, t: Ty, xs: seq<int>, p: nat)
    requires Writer(d) && (t.TList? || t.TBlob?)
    ensures EmitOne(d, b, t, VList(xs), p) ==
            if ListConforms(Element(t), VList(xs)) && Align(p) + |ListImage(Element(t), xs)| <= |b|
            then Some((Splice(b, Align(p), ListImage(Element(t), xs)), Align(p) + |ListImage(Element(t), xs)|))
            else None
  {
    hide Items, NatBits, Pow2, Patterns, InRange;
    var k := Element(t);
    if ListConforms(k, VList(xs)) {
      var tok := if t.TList? then List(Width(k), false) else List(1, true);
      SingleToken(d, b, tok, Arr(Patterns(k, xs)), p);
    }
  }

  lemma BytesRead(payload: seq<byte>, at: nat, w: nat)
    requires at + w <= |payload|
    ensures FromBigEndian(payload[at..at + w]) == NatOf(BitsOf(payload)[8 * at..8 * at + 8 * w])
  {
    BitsOfSlice(payload, at, at + w);
    assert 8 * (at + w) == 8 * at + 8 * w;
  }

  /** `n` bytes are a whole number of elements of `w` bytes. */
  predicate Whole(n: nat, w: width) {
    n == 0 || (n >= w && Whole(n - w, w))
  }

  lemma WholeStep(n: nat, w: width)
    requires Whole(n, w) && n > 0
    ensures n >= w && Whole(n - w, w)
  {
  }

  /** The whole elements of `w` bytes among `len` bytes. */
  function WholeBytes(len: nat, w: width): (r: nat)
    ensures r == WholePart(len, w) && Whole(r, w)
  {
    WholeElements(len, w);
    ElementCount(len, w);
    len / w * w
  }

  lemma ElementCount(len: nat, w: width)
    ensures len / w * w == len - len % w
  {
    if w == 2 || w == 4 || w == 8 {
    }
  }

  lemma {:induction false} WholeElements(len: nat, w: width)
    ensures Whole(len - len % w, w)
    decreases len
  {
    if len >= w {
      AddMod(len - w, w);
      WholeElements(len - w, w);
    }
  }

  /** The elements from `o` to `end`. */
  function Elements(payload: seq<byte>, w: width, o: nat, end: nat): seq<nat>
    requires o <= end <= |payload|
  {
    ReadItems(w, BitsOf(payload[o..end]))
  }

  lemma NextElement(payload: seq<byte>, w: width, o: nat, end: nat)
    requires o + w <= end <= |payload|
    ensures Elements(payload, w, o, end) ==
            [FromBigEndian(payload[o..o + w])] + Elements(payload, w, o + w, end)
  {
    var m := o + w;
    var a, z := payload[o..m], payload[m..end];
    assert payload[o..end] == a + z;
    BitsOfAppend(a, z);
    assert (BitsOf(a) + BitsOf(z))[..8 * w] == BitsOf(a);
    assert (BitsOf(a) + BitsOf(z))[8 * w..] == BitsOf(z);
  }

  lemma OneMoreElement(k: Num, xs: seq<int>, n: nat, rest: seq<nat>)
    requires AllInRange(k, xs) && n < Pow2(8 * Width(k))
    ensures AllInRange(k, xs + [Value(k, n)])
    ensures Patterns(k, xs + [Value(k, n)]) + rest == Patterns(k, xs) + ([n] + rest)
  {
    assert Patterns(k, xs + [Value(k, n)]) == Patterns(k, xs) + [n];
  }

  /** The elements up to `o` are in `xs`. */
  ghost predicate Collected(payload: seq<byte>, k: Num, start: nat, o: nat, end: nat, xs: seq<int>) {
    && start <= o <= end && o <= |payload| && AllInRange(k, xs)
    && (end <= |payload| ==>
          Patterns(k, xs) + Elements(payload, Width(k), o, end) == Elements(payload, Width(k), start, end))
  }

  lemma CollectedNone(payload: seq<byte>, k: Num, start: nat, end: nat)
    requires start <= end && start <= |payload|
    ensures Collected(payload, k, start, start, end, [])
  {
  }

  lemma CollectedRound(payload: seq<byte>, k: Num, start: nat, o: nat, end: nat, xs: seq<int>)
    requires Collected(payload, k, start, o, end, xs) && o + Width(k) <= end && o + Width(k) <= |payload|
    ensures Collected(payload, k, start, o + Width(k), end,
                      xs + [Value(k, FromBigEndian(payload[o..o + Width(k)]))])
  {
    hide ReadItems, BitsOf, FromBigEndian, Elements;
    var x := FromBigEndian(payload[o..o + Width(k)]);
    if end <= |payload| {
      NextElement(payload, Width(k), o, end);
      OneMoreElement(k, xs, x, Elements(payload, Width(k), o + Width(k), end));
    }
  }

  lemma CollectedAll(payload: seq<byte>, k: Num, start: nat, end: nat, xs: seq<int>)
    requires Collected(payload, k, start, end, end, xs)
    ensures AllInRange(k, xs) && Patterns(k, xs) == Elements(payload, Width(k), start, end)
  {
    assert payload[end..end] == [];
  }

  /** Reading a number, on bytes. */
  lemma ReadNumBytes(d: Dialect, payload: seq<byte>, k: Num, u: nat)
    ensures var at, w := Align(u) / 8, Width(k);
            Read(d, BitsOf(payload), TNum(k), u) ==
            if at + w > |payload| then None
            else Some((VNum(Value(k, FromBigEndian(payload[at..at + w]))), Next(d, Prim(w), u, 8 * w)))
  {
    hide BitsOf, NatOf, FromBigEndian;
    var at := Align(u) / 8;
    assert 8 * at == Align(u);
    if at + Width(k) <= |payload| {
      BytesRead(payload, at, Width(k));
    }
  }

  lemma TailBits(payload: seq<byte>, start: nat, n: nat)
    requires start + n <= |payload|
    ensures BitsOf(payload)[8 * start..][..8 * n] == BitsOf(payload[start..start + n])
  {
    hide BitsOf;
    BitsOfSlice(payload, start, start + n);
  }

  /** Reading the length and elements of a list, on bytes. */
  lemma ReadLeafBytes(d: Dialect, payload: seq<byte>, t: Token, u: nat)
    requires t.List?
    ensures var at := Align(u) / 8;
            if at + 2 > |payload| then ReadLeaf(d, BitsOf(payload), t, u) == None
            else
              var len := FromBigEndian(payload[at..at + 2]);
              var whole := WholePart(len, t.w);
              var step := 16 + 8 * (if d.rawLength then len else whole);
              ReadLeaf(d, BitsOf(payload), t, u) ==
              if at + 2 + whole <= |payload| then Some((Arr(Elements(payload, t.w, at + 2, at + 2 + whole)), step))
              else if t.blob && d.truncates then Some((Arr(Elements(payload, t.w, at + 2, |payload|)), step))
              else None
  {
    hide BitsOf, NatOf, ReadItems, FromBigEndian, WholePart;
    var at := Align(u) / 8;
    assert 8 * at == Align(u);
    if at + 2 <= |payload| {
      BytesRead(payload, at, 2);
      var len := FromBigEndian(payload[at..at + 2]);
      var whole := WholePart(len, t.w);
      if at + 2 + whole <= |payload| {
        TailBits(payload, at + 2, whole);
      } else {
        TailBits(payload, at + 2, |payload| - (at + 2));
        var tail := BitsOf(payload)[8 * (at + 2)..];
        assert tail[..|tail|] == tail;
      }
    }
  }

  lemma ListIsItsPatterns(k: Num, xs: seq<int>, ns: seq<nat>)
    requires Below(ns, Pow2(8 * Width(k))) && AllInRange(k, xs) && Patterns(k, xs) == ns
    ensures xs == Values(k, ns)
  {
    PatternsInjective(k, xs, Values(k, ns));
  }

  /** The bytes of a slice are its one-byte elements. */
  lemma {:induction false} ByteWise(data: seq<byte>)
    ensures AllInRange(U8, data) && Patterns(U8, data) == ReadItems(1, BitsOf(data))
    decreases |data|
  {
    hide BitsOf, NatOf;
    U8Range();
    if data == [] {
    } else {
      var a, z := data[..1], data[1..];
      assert data == a + z;
      BitsOfAppend(a, z);
      BitsOfByte(data[0]);
      assert a == [data[0]];
      assert (BitsOf(a) + BitsOf(z))[..8] == NatBits(data[0], 8);
      assert (BitsOf(a) + BitsOf(z))[8..] == BitsOf(z);
      NatOfNatBits(data[0], 8);
      ByteWise(z);
      assert Patterns(U8, data) == [data[0] as nat] + Patterns(U8, z);
    }
  }

  lemma U8Range()
    ensures forall x: byte :: InRange(U8, x) && Pattern(U8, x) == x
    ensures Pow2(8) == 256
  {
    assert Pow2(8) == 256 == 2 * Pow2(7);
  }

  /** `vs` followed by what the rest of a read gives. */
  function Continued(vs: seq<Val>, rest: Option<(seq<Val>, nat)>): Option<(seq<Val>, nat)> {
    if rest.None? then None else Some((vs + rest.value.0, rest.value.1))
  }

  lemma ContinuedRound(d: Dialect, b: seq<bool>, ts: seq<Ty>, u: nat, vs: seq<Val>)
    requires ts != [] && Read(d, b, ts[0], u).Some?
    ensures var (v, e) := Read(d, b, ts[0], u).value;
            Continued(vs, ReadAll(d, b, ts, u)) == Continued(vs + [v], ReadAll(d, b, ts[1..], e))
  {
    var (v, e) := Read(d, b, ts[0], u).value;
    var rest := ReadAll(d, b, ts[1..], e);
    if rest.Some? {
      assert vs + ([v] + rest.value.0) == (vs + [v]) + rest.value.0;
    }
  }
}
