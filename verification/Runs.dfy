/**
  Which types survive a trip from one implementation to another, stated on the
  types alone: what stands between the bit fields of a run.
 */
module Runs {
  import opened Wire
  import opened Types
  import opened Interop

  /** What can stand between bit fields. */
  datatype Kind = Begin | Finish | Number | Sequence

  /** A type as a row of parts: bit fields, numbers, lists, and where structs begin and finish. */
  datatype Part = Field(n: nat) | Mark(kind: Kind)

  function Parts(t: Ty): seq<Part>
    decreases t, 1
  {
    match t
    case TBit(n) => [Field(n)]
    case TNum(_) => [Mark(Number)]
    case TList(_) => [Mark(Sequence)]
    case TBlob => [Mark(Sequence)]
    case TStruct(ms) => [Mark(Begin)] + PartsAll(ms) + [Mark(Finish)]
  }

  function PartsAll(ts: seq<Ty>): seq<Part>
    decreases ts, 0
  {
    if ts == [] then [] else Parts(ts[0]) + PartsAll(ts[1..])
  }

  /** Size of all bit fields together. */
  function BitsIn(ps: seq<Part>): nat {
    if ps == [] then 0
    else BitsIn(ps[..|ps| - 1]) + (if ps[|ps| - 1].Field? then ps[|ps| - 1].n else 0)
  }

  /** Where the stretch that reaches up to part `k` begins: behind the last part of these kinds. */
  function StretchStart(ps: seq<Part>, k: nat, kinds: set<Kind>): (i: nat)
    requires k <= |ps|
    ensures i <= k
  {
    if k == 0 then 0
    else if ps[k - 1].Mark? && ps[k - 1].kind in kinds then k
    else StretchStart(ps, k - 1, kinds)
  }

  /**
    For every bit field that is not empty: go back to the last part of the kinds
    `stop`, and to the last part of the kinds `stop` or `cut`. The bit fields
    between the two make up whole bytes.
   */
  predicate WholeRuns(ps: seq<Part>, stop: set<Kind>, cut: set<Kind>) {
    forall k :: 0 <= k < |ps| && ps[k].Field? && ps[k].n > 0 ==> WholeBefore(ps, k, stop, cut)
  }

  predicate WholeBefore(ps: seq<Part>, k: nat, stop: set<Kind>, cut: set<Kind>)
    requires k <= |ps|
  {
    BehindMore(ps, k, stop, cut);
    BitsIn(ps[StretchStart(ps, k, stop)..StretchStart(ps, k, stop + cut)]) % 8 == 0
  }

  lemma {:induction false} BehindMore(ps: seq<Part>, k: nat, stop: set<Kind>, cut: set<Kind>)
    requires k <= |ps|
    ensures StretchStart(ps, k, stop) <= StretchStart(ps, k, stop + cut)
  {
    if k > 0 && !(ps[k - 1].Mark? && ps[k - 1].kind in stop + cut) {
      BehindMore(ps, k - 1, stop, cut);
    }
  }

  // ---------------------------------------------------------------- The conditions

  /**
    Python gets back what it packs: wherever another bit field follows, the bit
    fields in front of a number, back to the begin of a struct or to a list, are
    whole bytes.
   */
  predicate PythonReadsPython(ts: seq<Ty>) {
    WholeRuns(PartsAll(ts), {Begin, Sequence}, {Number})
  }

  /** Python gets what C stores: so are those in front of the end of a struct. */
  predicate PythonReadsC(ts: seq<Ty>) {
    WholeRuns(PartsAll(ts), {Begin, Sequence}, {Number, Finish})
  }

  /** C gets what Python packs: a run that goes on behind the end of a struct is whole bytes up to it. */
  predicate CReadsPython(ts: seq<Ty>) {
    WholeRuns(PartsAll(ts), {Begin, Number, Sequence}, {Finish})
  }

  /** C gets what C# serializes: a run is whole bytes wherever it crosses the begin or the end of a struct. */
  predicate CReadsCSharp(ts: seq<Ty>) {
    WholeRuns(PartsAll(ts), {Number, Sequence}, {Begin, Finish})
  }

  /**
    C# gets back what it serializes: wherever another bit field follows, all bit
    fields in front of a number or list are whole bytes together.
   */
  predicate CSharpReadsCSharp(ts: seq<Ty>) {
    WholeRuns(PartsAll(ts), {}, {Number, Sequence})
  }

  /** C# gets what C stores: so are those in front of the begin or the end of a struct. */
  predicate CSharpReadsC(ts: seq<Ty>) {
    WholeRuns(PartsAll(ts), {}, {Begin, Finish, Number, Sequence})
  }

  // ---------------------------------------------------------------- Parts and tokens

  function PartOf(t: Token): Part {
    match t
    case Open => Mark(Begin)
    case Close => Mark(Finish)
    case Bits(n) => Field(n)
    case Prim(_) => Mark(Number)
    case List(_, _) => Mark(Sequence)
  }

  predicate Same(ps: seq<Part>, ts: seq<Token>) {
    |ps| == |ts| && forall i :: 0 <= i < |ts| ==> ps[i] == PartOf(ts[i])
  }

  lemma SameAppend(ps: seq<Part>, qs: seq<Part>, ts: seq<Token>, us: seq<Token>)
    requires Same(ps, ts) && Same(qs, us)
    ensures Same(ps + qs, ts + us)
  {
  }

  lemma {:induction false} PartsAreTokens(t: Ty)
    ensures Same(Parts(t), Tokens(t))
    decreases t, 1
  {
    match t
    case TStruct(ms) =>
      PartsAreTokensAll(ms);
      SameAppend([Mark(Begin)], PartsAll(ms), [Open], TokensAll(ms));
      SameAppend([Mark(Begin)] + PartsAll(ms), [Mark(Finish)], [Open] + TokensAll(ms), [Close]);
    case _ =>
  }

  lemma {:induction false} PartsAreTokensAll(ts: seq<Ty>)
    ensures Same(PartsAll(ts), TokensAll(ts))
    decreases ts, 0
  {
    if ts != [] {
      PartsAreTokens(ts[0]);
      PartsAreTokensAll(ts[1..]);
      SameAppend(Parts(ts[0]), PartsAll(ts[1..]), Tokens(ts[0]), TokensAll(ts[1..]));
    }
  }

  // ---------------------------------------------------------------- Positions

  /** The dialect returns to a byte boundary at exactly these kinds of parts. */
  predicate ReturnsAt(d: Dialect, kinds: set<Kind>) {
    && (d.alignOpen <==> Begin in kinds) && (d.alignClose <==> Finish in kinds)
    && (d.realignPrim <==> Number in kinds) && (d.realignList <==> Sequence in kinds)
  }

  /** How far past a byte boundary the dialect is at part `k`. */
  function Since(ps: seq<Part>, k: nat, kinds: set<Kind>): nat
    requires k <= |ps|
  {
    BitsIn(ps[StretchStart(ps, k, kinds)..k]) % 8
  }

  lemma SinceStep(d: Dialect, ps: seq<Part>, k: nat, kinds: set<Kind>, t: Token)
    requires ReturnsAt(d, kinds) && k < |ps| && ps[k] == PartOf(t)
    ensures Since(ps, k + 1, kinds) == Phase(d, t, Since(ps, k, kinds))
  {
    var i := StretchStart(ps, k, kinds);
    if t.Bits? {
      assert ps[i..k + 1][..k - i] == ps[i..k];
      AddModulo(BitsIn(ps[i..k]), t.n);
    } else if ps[k].kind !in kinds {
      assert ps[i..k + 1][..k - i] == ps[i..k];
    }
  }

  lemma AddModulo(a: nat, n: nat)
    ensures (a + n) % 8 == (a % 8 + n) % 8
  {
    assert a + n == 8 * (a / 8) + (a % 8 + n);
  }

  /** At every bit field from `k` on that is not empty, both are equally far past a byte boundary. */
  predicate InStepFrom(ps: seq<Part>, k: nat, a: set<Kind>, b: set<Kind>) {
    forall j :: k <= j < |ps| && ps[j].Field? && ps[j].n > 0 ==> Since(ps, j, a) == Since(ps, j, b)
  }

  lemma {:induction false} CompatibleIsInStep(w: Dialect, r: Dialect, ps: seq<Part>, ts: seq<Token>, k: nat,
                                              a: set<Kind>, b: set<Kind>)
    requires Same(ps, ts) && k <= |ps| && ReturnsAt(w, a) && ReturnsAt(r, b)
    ensures Compatible(w, r, ts[k..], Since(ps, k, a), Since(ps, k, b)) <==> InStepFrom(ps, k, a, b)
    decreases |ps| - k
  {
    hide Since, ReturnsAt, Phase;
    if k < |ps| {
      assert ts[k..][1..] == ts[k + 1..] && ps[k] == PartOf(ts[k]);
      SinceStep(w, ps, k, a, ts[k]);
      SinceStep(r, ps, k, b, ts[k]);
      CompatibleIsInStep(w, r, ps, ts, k + 1, a, b);
    }
  }

  lemma {:induction false} BitsInAppend(ps: seq<Part>, qs: seq<Part>)
    ensures BitsIn(ps + qs) == BitsIn(ps) + BitsIn(qs)
    decreases |qs|
  {
    if qs == [] {
      assert ps + qs == ps;
    } else {
      var m := |qs| - 1;
      assert (ps + qs)[..|ps + qs| - 1] == ps + qs[..m];
      BitsInAppend(ps, qs[..m]);
    }
  }

  lemma SameRemainder(a: nat, b: nat)
    ensures (a + b) % 8 == b % 8 <==> a % 8 == 0
  {
    AddModulo(a, b);
    AddModulo(b, a % 8);
  }

  lemma InStepIsWhole(ps: seq<Part>, k: nat, stop: set<Kind>, cut: set<Kind>)
    requires k <= |ps|
    ensures Since(ps, k, stop) == Since(ps, k, stop + cut) <==> WholeBefore(ps, k, stop, cut)
  {
    BehindMore(ps, k, stop, cut);
    var i, j := StretchStart(ps, k, stop), StretchStart(ps, k, stop + cut);
    assert ps[i..k] == ps[i..j] + ps[j..k];
    BitsInAppend(ps[i..j], ps[j..k]);
    SameRemainder(BitsIn(ps[i..j]), BitsIn(ps[j..k]));
  }

  /** Of two dialects that return to a byte boundary at `stop`, and one of them at `cut` as well. */
  lemma CompatibleIff(w: Dialect, r: Dialect, ts: seq<Ty>, stop: set<Kind>, cut: set<Kind>)
    requires (ReturnsAt(w, stop + cut) && ReturnsAt(r, stop)) || (ReturnsAt(w, stop) && ReturnsAt(r, stop + cut))
    ensures CompatibleTypes(w, r, ts) <==> WholeRuns(PartsAll(ts), stop, cut)
  {
    hide Since, ReturnsAt, WholeBefore, Compatible;
    var ps, tk := PartsAll(ts), TokensAll(ts);
    PartsAreTokensAll(ts);
    assert tk[0..] == tk;
    NothingSince(ps, stop);
    NothingSince(ps, stop + cut);
    forall k | 0 <= k < |ps|
      ensures Since(ps, k, stop) == Since(ps, k, stop + cut) <==> WholeBefore(ps, k, stop, cut)
    {
      InStepIsWhole(ps, k, stop, cut);
    }
    if ReturnsAt(r, stop) && ReturnsAt(w, stop + cut) {
      CompatibleIsInStep(w, r, ps, tk, 0, stop + cut, stop);
    } else {
      CompatibleIsInStep(w, r, ps, tk, 0, stop, stop + cut);
    }
  }

  lemma NothingSince(ps: seq<Part>, kinds: set<Kind>)
    ensures Since(ps, 0, kinds) == 0
  {
  }

  // ---------------------------------------------------------------- Which types are read back

  /** The conditions are what it takes to keep in step with the writer. */
  lemma FromPythonIff(ts: seq<Ty>)
    ensures CompatibleTypes(PYTHON_PACK, PYTHON_UNPACK, ts) <==> PythonReadsPython(ts)
    ensures CompatibleTypes(PYTHON_PACK, EMITTED_C, ts) <==> CReadsPython(ts)
  {
    CompatibleIff(PYTHON_PACK, PYTHON_UNPACK, ts, {Begin, Sequence}, {Number});
    CompatibleIff(PYTHON_PACK, EMITTED_C, ts, {Begin, Number, Sequence}, {Finish});
  }

  lemma FromCIff(ts: seq<Ty>)
    ensures CompatibleTypes(EMITTED_C, PYTHON_UNPACK, ts) <==> PythonReadsC(ts)
    ensures CompatibleTypes(EMITTED_C, CSHARP_DESERIALIZE, ts) <==> CSharpReadsC(ts)
    ensures CompatibleTypes(EMITTED_C, EMITTED_C, ts)
  {
    CompatibleIff(EMITTED_C, PYTHON_UNPACK, ts, {Begin, Sequence}, {Number, Finish});
    CompatibleIff(EMITTED_C, CSHARP_DESERIALIZE, ts, {}, {Begin, Finish, Number, Sequence});
    SelfCompatible(EMITTED_C, TokensAll(ts), 0);
  }

  lemma FromCSharpIff(ts: seq<Ty>)
    ensures CompatibleTypes(CSHARP_SERIALIZE, CSHARP_DESERIALIZE, ts) <==> CSharpReadsCSharp(ts)
    ensures CompatibleTypes(CSHARP_SERIALIZE, EMITTED_C, ts) <==> CReadsCSharp(ts)
  {
    CompatibleIff(CSHARP_SERIALIZE, CSHARP_DESERIALIZE, ts, {}, {Number, Sequence});
    CompatibleIff(CSHARP_SERIALIZE, EMITTED_C, ts, {Number, Sequence}, {Begin, Finish});
  }

  /**
    Who gets back everything that Python packs, exactly, in any buffer that can hold
    a message of these types; and below, everything that C stores and C# serializes.
   */
  lemma UnderstoodFromPythonIff(b: seq<bool>, ts: seq<Ty>)
    requires MinEnd(PYTHON_PACK, ts) <= |b|
    ensures Understands(PYTHON_PACK, PYTHON_UNPACK, b, ts) <==> PythonReadsPython(ts)
    ensures Understands(PYTHON_PACK, EMITTED_C, b, ts) <==> CReadsPython(ts)
  {
    FromPythonIff(ts);
    UnderstandsIff(PYTHON_PACK, PYTHON_UNPACK, b, ts);
    UnderstandsIff(PYTHON_PACK, EMITTED_C, b, ts);
  }

  lemma UnderstoodFromCIff(b: seq<bool>, ts: seq<Ty>)
    requires MinEnd(EMITTED_C, ts) <= |b|
    ensures Understands(EMITTED_C, PYTHON_UNPACK, b, ts) <==> PythonReadsC(ts)
    ensures Understands(EMITTED_C, CSHARP_DESERIALIZE, b, ts) <==> CSharpReadsC(ts)
    ensures Understands(EMITTED_C, EMITTED_C, b, ts)
  {
    FromCIff(ts);
    UnderstandsIff(EMITTED_C, PYTHON_UNPACK, b, ts);
    UnderstandsIff(EMITTED_C, CSHARP_DESERIALIZE, b, ts);
    UnderstandsIff(EMITTED_C, EMITTED_C, b, ts);
  }

  lemma UnderstoodFromCSharpIff(b: seq<bool>, ts: seq<Ty>)
    requires MinEnd(CSHARP_SERIALIZE, ts) <= |b|
    ensures Understands(CSHARP_SERIALIZE, CSHARP_DESERIALIZE, b, ts) <==> CSharpReadsCSharp(ts)
    ensures Understands(CSHARP_SERIALIZE, EMITTED_C, b, ts) <==> CReadsCSharp(ts)
  {
    FromCSharpIff(ts);
    UnderstandsIff(CSHARP_SERIALIZE, CSHARP_DESERIALIZE, b, ts);
    UnderstandsIff(CSHARP_SERIALIZE, EMITTED_C, b, ts);
  }
}
