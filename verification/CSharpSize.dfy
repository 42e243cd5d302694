/**
  The C# size computation, with its caches, and the messages that are built in
  buffers of the computed size.
 */
module CSharpSize {
  import opened BitOps
  import opened BitString
  import opened Results
  import opened Wire
  import opened Types
  import opened Interop
  import opened Framing
  import opened CSharpCodec

  // ---------------------------------------------------------------- Sizes without caches

  /** The size of a value does not depend on the value: no list, str or bytes inside. */
  predicate IsStatic(t: Ty)
    decreases t, 1
  {
    match t
    case TList(_) => false
    case TBlob => false
    case TStruct(ms) => AllStatic(ms)
    case _ => true
  }

  predicate AllStatic(ts: seq<Ty>)
    decreases ts, 0
  {
    ts != [] ==> IsStatic(ts[0]) && AllStatic(ts[1..])
  }

  /** Bits that the values of a static type take, padding not included. */
  function StaticBits(t: Ty): nat
    requires IsStatic(t)
    decreases t, 1
  {
    match t
    case TNum(k) => 8 * Width(k)
    case TBit(n) => n
    case TStruct(ms) => AllStaticBits(ms)
  }

  function AllStaticBits(ts: seq<Ty>): nat
    requires AllStatic(ts)
    decreases ts, 0
  {
    if ts == [] then 0 else StaticBits(ts[0]) + AllStaticBits(ts[1..])
  }

  /** Bits that a value takes, padding not included. */
  function ValueBits(t: Ty, v: Val): nat
    requires Conforms(t, v)
    decreases t, 1
  {
    match t
    case TNum(k) => 8 * Width(k)
    case TBit(n) => n
    case TList(k) => 16 + 8 * (|v.xs| * Width(k))
    case TBlob => 16 + 8 * |v.xs|
    case TStruct(ms) => AllValueBits(ms, v.vs)
  }

  function AllValueBits(ts: seq<Ty>, vs: seq<Val>): nat
    requires ConformAll(ts, vs)
    decreases ts, 0
  {
    if ts == [] then 0 else ValueBits(ts[0], vs[0]) + AllValueBits(ts[1..], vs[1..])
  }

  lemma {:induction false} StaticIsExact(t: Ty, v: Val)
    requires Conforms(t, v) && IsStatic(t)
    ensures ValueBits(t, v) == StaticBits(t)
    decreases t, 1
  {
    if t.TStruct? {
      AllStaticIsExact(t.members, v.vs);
    }
  }

  lemma {:induction false} AllStaticIsExact(ts: seq<Ty>, vs: seq<Val>)
    requires ConformAll(ts, vs) && AllStatic(ts)
    ensures AllValueBits(ts, vs) == AllStaticBits(ts)
    decreases ts, 0
  {
    if ts != [] {
      StaticIsExact(ts[0], vs[0]);
      AllStaticIsExact(ts[1..], vs[1..]);
    }
  }

  // ---------------------------------------------------------------- Size against advance

  /** Bits of the fields alone. */
  function FieldBits(ts: seq<Token>, ls: seq<Leaf>): nat
    requires Typed(ts, ls)
  {
    if ts == [] then 0 else |Image(ts, ls)| + FieldBits(ts[1..], Rest(ts[0], ls))
  }

  lemma {:induction false} FieldBitsAppend(ts: seq<Token>, us: seq<Token>, ls: seq<Leaf>, ms: seq<Leaf>)
    requires Typed(ts, ls) && Typed(us, ms)
    ensures Typed(ts + us, ls + ms)
    ensures FieldBits(ts + us, ls + ms) == FieldBits(ts, ls) + FieldBits(us, ms)
    decreases |ts|
  {
    hide Image;
    if ts == [] {
      assert ts + us == us && ls + ms == ms;
    } else {
      HeadOfAppend(ts, us, ls, ms);
      FieldBitsAppend(ts[1..], us, Rest(ts[0], ls), ms);
    }
  }

  lemma OneField(t: Token, ls: seq<Leaf>)
    requires Typed([t], ls)
    ensures FieldBits([t], ls) == if Takes(t) then |Field(t, ls[0])| else 0
  {
    assert [t][1..] == [];
  }

  /** The computed size is the size of the fields on the wire. */
  lemma {:induction false} ValueBitsAreFieldBits(t: Ty, v: Val)
    requires Conforms(t, v)
    ensures ValueBits(t, v) == FieldBits(Tokens(t), Leaves(t, v))
    decreases t, 1
  {
    hide FieldBits, Items, Patterns, NatBits, Pattern, InRange;
    match t
    case TNum(k) => OneField(Prim(Width(k)), Leaves(t, v));
    case TBit(n) => OneField(Bits(n), Leaves(t, v));
    case TList(k) => ListBits(t, v);
    case TBlob => ListBits(t, v);
    case TStruct(ms) =>
      AllValueBitsAreFieldBits(ms, v.vs);
      StructBits(ms, v.vs);
  }

  lemma ListBits(t: Ty, v: Val)
    requires (t.TList? || t.TBlob?) && Conforms(t, v)
    ensures FieldBits(Tokens(t), Leaves(t, v)) == 16 + 8 * (|v.xs| * Width(Element(t)))
  {
    hide FieldBits, Items, Patterns, NatBits, Pattern, InRange;
    OneField(List(Width(Element(t)), t.TBlob?), Leaves(t, v));
    ItemsWhole(Width(Element(t)), Patterns(Element(t), v.xs));
  }

  lemma StructBits(ms: seq<Ty>, vs: seq<Val>)
    requires ConformAll(ms, vs)
    ensures FieldBits(Tokens(TStruct(ms)), Leaves(TStruct(ms), VStruct(vs))) ==
            FieldBits(TokensAll(ms), LeavesAll(ms, vs))
  {
    hide FieldBits, TokensAll, LeavesAll;
    var ls := LeavesAll(ms, vs);
    OneField(Open, []);
    OneField(Close, []);
    FieldBitsAppend([Open], TokensAll(ms), [], ls);
    FieldBitsAppend([Open] + TokensAll(ms), [Close], [] + ls, []);
    assert [] + ls + [] == ls;
  }

  lemma {:induction false} AllValueBitsAreFieldBits(ts: seq<Ty>, vs: seq<Val>)
    requires ConformAll(ts, vs)
    ensures AllValueBits(ts, vs) == FieldBits(TokensAll(ts), LeavesAll(ts, vs))
    decreases ts, 0
  {
    if ts != [] {
      ValueBitsAreFieldBits(ts[0], vs[0]);
      AllValueBitsAreFieldBits(ts[1..], vs[1..]);
      FieldBitsAppend(Tokens(ts[0]), TokensAll(ts[1..]), Leaves(ts[0], vs[0]), LeavesAll(ts[1..], vs[1..]));
    }
  }

  /** Bits that alignment adds, from a position `p` bits past a byte boundary on; it depends on the types alone. */
  function Padding(ts: seq<Token>, p: nat): nat {
    if ts == [] then 0
    else
      match ts[0]
      case Bits(n) => Padding(ts[1..], (p + n) % 8)
      case Prim(_) => Align(p) - p + Padding(ts[1..], 0)
      case List(_, _) => Align(p) - p + Padding(ts[1..], 0)
      case _ => Padding(ts[1..], p)
  }

  /** Serializing advances by the fields and the padding, whatever the values. */
  lemma {:induction false} Advance(ts: seq<Token>, ls: seq<Leaf>, p: nat)
    requires Typed(ts, ls)
    ensures End(CSHARP_SERIALIZE, ts, ls, p) == p + FieldBits(ts, ls) + Padding(ts, p % 8)
    decreases |ts|
  {
    hide Field, Align, FieldBits;
    if ts == [] {
      NoFields();
    } else {
      var len := |Image(ts, ls)|;
      FieldsStep(ts, ls);
      var q := Next(CSHARP_SERIALIZE, ts[0], p, len);
      NextPhase(CSHARP_SERIALIZE, ts[0], p, len);
      PhaseOfAlign(p);
      Advance(ts[1..], Rest(ts[0], ls), q);
    }
  }

  lemma NoFields()
    ensures FieldBits([], []) == 0
  {
  }

  lemma FieldsStep(ts: seq<Token>, ls: seq<Leaf>)
    requires ts != [] && Typed(ts, ls)
    ensures FieldBits(ts, ls) == |Image(ts, ls)| + FieldBits(ts[1..], Rest(ts[0], ls))
  {
  }

  lemma PhaseOfAlign(p: nat)
    ensures Align(p) - p == Align(p % 8) - p % 8
  {
  }

  /** Bit fields before every number and list add up to whole bytes. */
  predicate NoPadding(ts: seq<Token>, p: nat) {
    ts != [] ==>
      match ts[0]
      case Bits(n) => NoPadding(ts[1..], (p + n) % 8)
      case Prim(_) => p == 0 && NoPadding(ts[1..], 0)
      case List(_, _) => p == 0 && NoPadding(ts[1..], 0)
      case _ => NoPadding(ts[1..], p)
  }

  lemma {:induction false} NoPaddingIff(ts: seq<Token>, p: nat)
    requires p < 8
    ensures Padding(ts, p) == 0 <==> NoPadding(ts, p)
    decreases |ts|
  {
    if ts != [] {
      match ts[0]
      case Bits(n) => NoPaddingIff(ts[1..], (p + n) % 8);
      case Prim(_) => NoPaddingIff(ts[1..], 0);
      case List(_, _) => NoPaddingIff(ts[1..], 0);
      case _ => NoPaddingIff(ts[1..], p);
    }
  }

  /**
    `Serialize` advances by `GetObjectSize` and the padding of the type, and so by
    just the size, whatever the value, if and only if the type needs no padding.
   */
  lemma SizeIsAdvanceIff(t: Ty, v: Val, p: nat)
    requires Conforms(t, v)
    ensures End(CSHARP_SERIALIZE, Tokens(t), Leaves(t, v), p) == p + ValueBits(t, v) + Padding(Tokens(t), p % 8)
    ensures End(CSHARP_SERIALIZE, Tokens(t), Leaves(t, v), p) == p + ValueBits(t, v) <==> NoPadding(Tokens(t), p % 8)
  {
    ValueBitsAreFieldBits(t, v);
    Advance(Tokens(t), Leaves(t, v), p);
    NoPaddingIff(Tokens(t), p % 8);
  }

  lemma AllSizesAdvance(ts: seq<Ty>, vs: seq<Val>, p: nat)
    requires ConformAll(ts, vs)
    ensures EndOf(CSHARP_SERIALIZE, ts, vs, p) == p + AllValueBits(ts, vs) + Padding(TokensAll(ts), p % 8)
  {
    AllValueBitsAreFieldBits(ts, vs);
    Advance(TokensAll(ts), LeavesAll(ts, vs), p);
  }

  // ---------------------------------------------------------------- The caches

  /** The two memo tables of `Serialization`. */
  class SizeCache {
    var sizes: map<Ty, nat>
    var dynamicity: map<Ty, bool>

    /** The tables hold nothing but what would be computed without them. */
    ghost predicate Valid()
      reads this
    {
      && (forall t :: t in sizes ==> IsStatic(t) && sizes[t] == StaticBits(t))
      && (forall t :: t in dynamicity ==> dynamicity[t] == IsStatic(t))
    }

    constructor ()
      ensures Valid()
    {
      sizes, dynamicity := map[], map[];
    }

    /** `IsTypeStatic` */
    method IsTypeStatic(t: Ty) returns (r: bool)
      requires Valid()
      modifies this
      ensures Valid() && r == IsStatic(t) && sizes == old(sizes)
      decreases t
    {
      if t.TList? || t.TBlob? {
        return false;
      }
      if !t.TStruct? {
        return true;
      }
      if t in dynamicity {
        return dynamicity[t];
      }
      var ms := t.members;
      r := true;
      var i := 0;
      assert ms[0..] == ms;
      while i < |ms| && r
        invariant 0 <= i <= |ms| && Valid() && sizes == old(sizes)
        invariant if r then AllStatic(ms) == AllStatic(ms[i..]) else !AllStatic(ms)
        decreases |ms| - i
      {
        assert ms[i..][1..] == ms[i + 1..];
        r := IsTypeStatic(ms[i]);
        i := i + 1;
      }
      if t !in dynamicity {
        dynamicity := dynamicity[t := r];
      }
    }

    /** `GetTypeSize`: `None` when it throws because the type is dynamic. */
    method GetTypeSize(t: Ty) returns (r: Option<nat>)
      requires Valid() && !t.TBit?
      modifies this
      ensures Valid() && r == if IsStatic(t) then Some(StaticBits(t)) else None
      decreases t
    {
      if t in sizes {
        return Some(sizes[t]);
      }
      var isStatic := IsTypeStatic(t);
      if !isStatic {
        return None;
      }
      var size: nat := 0;
      match t {
        case TNum(k) =>
          size := 8 * Width(k);
        case TStruct(ms) =>
          var i := 0;
          assert ms[0..] == ms;
          while i < |ms|
            invariant 0 <= i <= |ms| && Valid() && AllStatic(ms[i..])
            invariant size + AllStaticBits(ms[i..]) == AllStaticBits(ms)
          {
            assert ms[i..][1..] == ms[i + 1..];
            if ms[i].TBit? {
              size := size + ms[i].n;
            } else {
              var member := GetTypeSize(ms[i]);
              size := size + member.value;
            }
            i := i + 1;
          }
      }
      if t !in sizes {
        sizes := sizes[t := size];
      }
      r := Some(size);
    }

    /** `GetObjectSize` */
    method GetObjectSize(t: Ty, v: Val) returns (size: nat)
      requires Valid() && !t.TBit? && Conforms(t, v)
      modifies this
      ensures Valid() && size == ValueBits(t, v)
      decreases t
    {
      if IsStatic(t) {
        StaticIsExact(t, v);
      }
      if t in sizes {
        return sizes[t];
      }
      if t.TBlob? {
        return 8 * (|v.xs| + 2);
      }
      if t.TList? {
        if |v.xs| == 0 {
          return 16;
        }
        var element := GetTypeSize(TNum(t.k));
        ScaledSize(Width(t.k), |v.xs|);
        return element.value * |v.xs| + 16;
      }
      var isStatic := IsTypeStatic(t);
      if !t.TStruct? || isStatic {
        var r := GetTypeSize(t);
        return r.value;
      }
      size := GetMembersSize(t.members, v.vs);
    }

    /** The loop over properties. */
    method GetMembersSize(ms: seq<Ty>, vs: seq<Val>) returns (size: nat)
      requires Valid() && ConformAll(ms, vs)
      modifies this
      ensures Valid() && size == AllValueBits(ms, vs)
      decreases ms
    {
      size := 0;
      var i := 0;
      assert ms[0..] == ms && vs[0..] == vs;
      while i < |ms|
        invariant 0 <= i <= |ms| == |vs| && Valid() && ConformAll(ms[i..], vs[i..])
        invariant size + AllValueBits(ms[i..], vs[i..]) == AllValueBits(ms, vs)
      {
        assert ms[i..][1..] == ms[i + 1..] && vs[i..][1..] == vs[i + 1..];
        if ms[i].TBit? {
          size := size + ms[i].n;
        } else {
          var member := GetObjectSize(ms[i], vs[i]);
          size := size + member;
        }
        i := i + 1;
      }
    }

    /** The constructor of `MessageShape`. */
    method Shape(ts: seq<Ty>) returns (isFixed: bool, size: nat)
      requires Valid() && NoBitArguments(ts)
      modifies this
      ensures Valid() && isFixed == AllStatic(ts)
      ensures size == if isFixed then AllStaticBits(ts) else 0
    {
      isFixed, size := true, 0;
      var i := 0;
      assert ts[0..] == ts;
      while i < |ts|
        invariant 0 <= i <= |ts| && Valid()
        invariant AllStatic(ts) == AllStatic(ts[i..])
        invariant AllStatic(ts) ==> size + AllStaticBits(ts[i..]) == AllStaticBits(ts)
      {
        assert ts[i..][1..] == ts[i + 1..];
        var isStatic := IsTypeStatic(ts[i]);
        if !isStatic {
          return false, 0;
        }
        var item := GetTypeSize(ts[i]);
        size := size + item.value;
        i := i + 1;
      }
    }
  }

  lemma ScaledSize(w: nat, n: nat)
    ensures 8 * w * n == 8 * (n * w)
  {
  }

  /** Arguments are whole objects; only properties are packed. */
  predicate NoBitArguments(ts: seq<Ty>) {
    forall i :: 0 <= i < |ts| ==> !ts[i].TBit?
  }
}
