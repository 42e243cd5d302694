/**
  The generated `T_init`: the flattened names of a struct's lists, and how the
  lengths passed for them are routed to the `T_init` of nested structs.
 */
module InitHelpers {
  import opened Wire
  import opened Types
  import opened Layout
  import opened ZeroCopy

  type simple = t: Ty | !t.TStruct? witness TBlob

  datatype Kind = Member(t: simple) | Nested(fields: seq<Field>)
  datatype Field = Field(name: string, kind: Kind)

  predicate IsList(t: Ty) {
    t.TList? || t.TBlob?
  }

  /** The type without its names. */
  function TypeOf(f: Field): Ty
    decreases f, 1
  {
    match f.kind
    case Member(t) => t
    case Nested(fs) => TStruct(TypesOf(fs))
  }

  function TypesOf(fs: seq<Field>): seq<Ty>
    decreases fs, 0
  {
    if fs == [] then [] else [TypeOf(fs[0])] + TypesOf(fs[1..])
  }

  // ---------------------------------------------------------------- Names

  function Prefixed(name: string, xs: seq<string>): (r: seq<string>)
    ensures |r| == |xs|
  {
    seq(|xs|, i requires 0 <= i < |xs| => name + "_" + xs[i])
  }

  function NamesOf(f: Field): seq<string>
    decreases f, 1
  {
    match f.kind
    case Member(t) => if IsList(t) then [f.name] else []
    case Nested(fs) => Prefixed(f.name, LeafNames(fs))
  }

  function LeafNames(fs: seq<Field>): seq<string>
    decreases fs, 0
  {
    if fs == [] then [] else NamesOf(fs[0]) + LeafNames(fs[1..])
  }

  /** `_dynamic_member_names` */
  method DynamicMemberNames(fs: seq<Field>) returns (names: seq<string>)
    ensures names == LeafNames(fs)
    decreases fs
  {
    hide LeafNames, Prefixed;
    names := [];
    assert fs[0..] == fs;
    for i := 0 to |fs|
      invariant names + LeafNames(fs[i..]) == LeafNames(fs)
    {
      assert fs[i..][1..] == fs[i + 1..];
      NamesStep(fs[i..], names);
      match fs[i].kind {
        case Nested(inner) =>
          var xs := DynamicMemberNames(inner);
          names := names + Prefixed(fs[i].name, xs);
        case Member(t) =>
          if IsList(t) {
            names := names + [fs[i].name];
          }
      }
    }
    NoNames();
  }

  lemma NoNames()
    ensures LeafNames([]) == []
  {
  }

  lemma NamesStep(fs: seq<Field>, names: seq<string>)
    requires fs != []
    ensures names + LeafNames(fs) == names + NamesOf(fs[0]) + LeafNames(fs[1..])
  {
    hide NamesOf;
  }

  lemma NoLists(t: simple)
    ensures Lists(Tokens(t)) == if IsList(t) then 1 else 0
  {
    assert Tokens(t)[1..] == [];
  }

  /** Flattened names, suffixes of the layout and lists of the type are equally many, however deep the nesting. */
  lemma {:induction false} OneNamePerList(fs: seq<Field>)
    ensures |LeafNames(fs)| == Lists(TokensAll(TypesOf(fs))) == |LayoutFrom([0], TypesOf(fs))| - 1
    decreases fs, 0
  {
    hide TokenLayout, LayoutFrom;
    LayoutOfTokens(TypesOf(fs));
    OneEntryPerList(TokensAll(TypesOf(fs)));
    if fs != [] {
      OneNamePerListIn(fs[0]);
      OneNamePerList(fs[1..]);
      ListsAppend(Tokens(TypeOf(fs[0])), TokensAll(TypesOf(fs[1..])));
    }
  }

  lemma {:induction false} OneNamePerListIn(f: Field)
    ensures |NamesOf(f)| == Lists(Tokens(TypeOf(f)))
    decreases f, 1
  {
    match f.kind
    case Member(t) => NoLists(t);
    case Nested(fs) =>
      OneNamePerList(fs);
      var tk := TokensAll(TypesOf(fs));
      ListsAppend([Open], tk);
      ListsAppend([Open] + tk, [Close]);
  }

  /** `struct {a: bytes, b: struct {c: U8, d: bytes, e: struct {f: bytes}}}` */
  lemma NamesByExample()
    ensures var inner := Field("e", Nested([Field("f", Member(TBlob))]));
            var outer := Field("b", Nested([Field("c", Member(TNum(U8))), Field("d", Member(TBlob)), inner]));
            LeafNames([Field("a", Member(TBlob)), outer]) == ["a", "b_d", "b_e_f"]
  {
    var innermost := [Field("f", Member(TBlob))];
    assert LeafNames(innermost) == ["f"];
    var inner := Field("e", Nested(innermost));
    assert "e" + "_" + "f" == "e_f";
    assert Prefixed("e", ["f"]) == ["e_f"];
    assert NamesOf(inner) == ["e_f"];
    assert [inner][1..] == [] && LeafNames([]) == [] && ["e_f"] + [] == ["e_f"];
    assert LeafNames([inner]) == ["e_f"];
    var d, c := Field("d", Member(TBlob)), Field("c", Member(TNum(U8)));
    assert [d, inner][1..] == [inner] && [c, d, inner][1..] == [d, inner];
    assert LeafNames([d, inner]) == ["d", "e_f"] && LeafNames([c, d, inner]) == ["d", "e_f"];
    var outer := Field("b", Nested([c, d, inner]));
    assert "b" + "_" + "d" == "b_d" && "b" + "_" + "e_f" == "b_e_f";
    assert Prefixed("b", ["d", "e_f"]) == ["b_d", "b_e_f"];
    assert NamesOf(outer) == ["b_d", "b_e_f"];
    assert [outer][1..] == [] && ["b_d", "b_e_f"] + [] == ["b_d", "b_e_f"];
    assert LeafNames([outer]) == ["b_d", "b_e_f"];
    var a := Field("a", Member(TBlob));
    assert [a, outer][1..] == [outer];
  }

  // ---------------------------------------------------------------- Routing

  predicate EndsWith(y: string, x: string) {
    |x| <= |y| && y[|y| - |x|..] == x
  }

  /** Index of the first name from `k` on that ends with `x`. */
  function FirstEnding(names: seq<string>, x: string, k: nat): (r: nat)
    requires k <= |names|
    ensures k <= r <= |names|
    ensures forall i :: k <= i < r ==> !EndsWith(names[i], x)
    ensures r < |names| ==> EndsWith(names[r], x)
    decreases |names| - k
  {
    if k == |names| || EndsWith(names[k], x) then k else FirstEnding(names, x, k + 1)
  }

  /** Which parameters of the outer `T_init` are passed on for the names `xs`. */
  function Routes(names: seq<string>, xs: seq<string>): seq<nat> {
    if xs == [] then []
    else
      var r := FirstEnding(names, xs[0], 0);
      (if r < |names| then [r] else []) + Routes(names, xs[1..])
  }

  /** The loops of `_member_default_value` for a nested struct. */
  method RouteLengths(names: seq<string>, xs: seq<string>) returns (args: seq<nat>)
    ensures args == Routes(names, xs)
  {
    hide Routes, FirstEnding, EndsWith;
    args := [];
    assert xs[0..] == xs && [] + Routes(names, xs) == Routes(names, xs);
    for i := 0 to |xs|
      invariant args + Routes(names, xs[i..]) == Routes(names, xs)
    {
      assert xs[i..][1..] == xs[i + 1..];
      RoutesStep(names, xs[i..]);
      var k := 0;
      while k < |names| && !EndsWith(names[k], xs[i])
        invariant 0 <= k <= |names| && FirstEnding(names, xs[i], 0) == FirstEnding(names, xs[i], k)
      {
        EndingStep(names, xs[i], k);
        k := k + 1;
      }
      EndingStep(names, xs[i], k);
      ghost var rest := Routes(names, xs[i + 1..]);
      if k < |names| {
        assert args + ([k] + rest) == args + [k] + rest;
        args := args + [k];
      } else {
        assert [] + rest == rest;
      }
    }
    RoutesNone(names, xs[|xs|..]);
  }

  lemma RoutesStep(names: seq<string>, xs: seq<string>)
    requires xs != []
    ensures var r := FirstEnding(names, xs[0], 0);
            Routes(names, xs) == (if r < |names| then [r] else []) + Routes(names, xs[1..])
  {
    hide FirstEnding;
  }

  lemma RoutesNone(names: seq<string>, xs: seq<string>)
    requires xs == []
    ensures Routes(names, xs) == []
  {
  }

  lemma EndingStep(names: seq<string>, x: string, k: nat)
    requires k <= |names|
    ensures FirstEnding(names, x, k) ==
            if k == |names| || EndsWith(names[k], x) then k else FirstEnding(names, x, k + 1)
  {
    hide EndsWith;
  }

  lemma PrefixedEnds(name: string, x: string)
    ensures EndsWith(name + "_" + x, x)
  {
  }

  /** The names of a nested struct stand in the outer list from `at` on. */
  predicate Stands(names: seq<string>, name: string, xs: seq<string>, at: nat) {
    at + |xs| <= |names| && forall j :: 0 <= j < |xs| ==> names[at + j] == name + "_" + xs[j]
  }

  /** Every name is routed, to its own parameter or to one before it. */
  lemma {:induction false} RoutesOf(names: seq<string>, name: string, xs: seq<string>, at: nat)
    requires Stands(names, name, xs, at)
    ensures |Routes(names, xs)| == |xs|
    ensures forall j :: 0 <= j < |xs| ==>
              Routes(names, xs)[j] == FirstEnding(names, xs[j], 0) <= at + j
    decreases |xs|
  {
    if xs != [] {
      PrefixedEnds(name, xs[0]);
      assert names[at + 0] == name + "_" + xs[0];
      forall j | 0 <= j < |xs[1..]| ensures names[at + 1 + j] == name + "_" + xs[1..][j] {
        assert names[at + (1 + j)] == name + "_" + xs[1 + j];
      }
      RoutesOf(names, name, xs[1..], at + 1);
    }
  }

  lemma NestedStands(fs: seq<Field>, names: seq<string>, at: nat)
    requires fs != [] && at <= |names| && names[at..] == LeafNames(fs)
    ensures at + |NamesOf(fs[0])| <= |names| && names[at + |NamesOf(fs[0])|..] == LeafNames(fs[1..])
    ensures fs[0].kind.Nested? ==>
              Stands(names, fs[0].name, LeafNames(fs[0].kind.fields), at)
              && |NamesOf(fs[0])| == |LeafNames(fs[0].kind.fields)|
  {
    var n := NamesOf(fs[0]);
    assert names[at..][|n|..] == LeafNames(fs[1..]);
    if fs[0].kind.Nested? {
      var xs := LeafNames(fs[0].kind.fields);
      forall j | 0 <= j < |xs| ensures names[at + j] == fs[0].name + "_" + xs[j] {
        assert names[at + j] == names[at..][j] == n[j];
      }
    }
  }

  /**
    `T_init` from field `fs[0]` on: for each list it allocates, in order, which
    length parameter of the outermost `T_init` it takes the length from.
   */
  function Sources(fs: seq<Field>, names: seq<string>, at: nat): (r: seq<nat>)
    requires at <= |names| && names[at..] == LeafNames(fs)
    ensures |r| == |LeafNames(fs)|
    ensures forall i :: 0 <= i < |r| ==> r[i] <= at + i
    decreases fs
  {
    if fs == [] then []
    else
      NestedStands(fs, names, at);
      var rest := Sources(fs[1..], names, at + |NamesOf(fs[0])|);
      match fs[0].kind
      case Member(t) => if IsList(t) then [at] + rest else rest
      case Nested(inner) =>
        var xs := LeafNames(inner);
        assert xs[0..] == xs;
        RoutesOf(names, fs[0].name, xs, at);
        Composed(Routes(names, xs), Sources(inner, xs, 0)) + rest
  }

  /** Parameters passed on through an inner call. */
  function Composed(outer: seq<nat>, inner: seq<nat>): (r: seq<nat>)
    requires |outer| == |inner| && forall i :: 0 <= i < |inner| ==> inner[i] <= i
    ensures |r| == |inner| && forall i :: 0 <= i < |r| ==> r[i] == outer[inner[i]]
  {
    seq(|inner|, i requires 0 <= i < |inner| => outer[inner[i]])
  }

  /** No leaf name of a nested struct is a suffix of a leaf name that comes before it. */
  predicate NoEarlierMatch(names: seq<string>, xs: seq<string>, at: nat) {
    forall j, k :: 0 <= j < |xs| && 0 <= k < at + j && k < |names| ==> !EndsWith(names[k], xs[j])
  }

  predicate Unambiguous(fs: seq<Field>, names: seq<string>, at: nat)
    decreases fs
  {
    fs != [] ==>
      && (fs[0].kind.Nested? ==>
            var inner := fs[0].kind.fields;
            NoEarlierMatch(names, LeafNames(inner), at) && Unambiguous(inner, LeafNames(inner), 0))
      && Unambiguous(fs[1..], names, at + |NamesOf(fs[0])|)
  }

  predicate Identity(r: seq<nat>, at: nat) {
    forall i :: 0 <= i < |r| ==> r[i] == at + i
  }

  lemma RoutesOwnIff(names: seq<string>, name: string, xs: seq<string>, at: nat)
    requires Stands(names, name, xs, at)
    ensures Identity(Routes(names, xs), at) <==> NoEarlierMatch(names, xs, at)
  {
    RoutesOf(names, name, xs, at);
    forall j | 0 <= j < |xs| ensures EndsWith(names[at + j], xs[j]) {
      PrefixedEnds(name, xs[j]);
    }
  }

  /** Passing on through two levels is right exactly when both levels are. */
  lemma ComposedIff(outer: seq<nat>, inner: seq<nat>, at: nat)
    requires |outer| == |inner|
    requires forall i :: 0 <= i < |inner| ==> inner[i] <= i && outer[i] <= at + i
    ensures Identity(Composed(outer, inner), at) <==> Identity(outer, at) && Identity(inner, 0)
  {
    if Identity(Composed(outer, inner), at) {
      forall i | 0 <= i < |inner| ensures inner[i] == i && outer[i] == at + i {
        assert Composed(outer, inner)[i] == outer[inner[i]] <= at + inner[i];
      }
    }
    if Identity(outer, at) && Identity(inner, 0) {
      forall i | 0 <= i < |inner| ensures Composed(outer, inner)[i] == at + i {
        assert inner[i] == i;
      }
    }
  }

  lemma IdentityAppend(x: seq<nat>, y: seq<nat>, at: nat)
    ensures Identity(x + y, at) <==> Identity(x, at) && Identity(y, at + |x|)
  {
    if Identity(x + y, at) {
      forall i | 0 <= i < |x| ensures x[i] == at + i {
        assert (x + y)[i] == x[i];
      }
      forall i | 0 <= i < |y| ensures y[i] == at + |x| + i {
        assert (x + y)[|x| + i] == y[i];
      }
    }
  }

  /** Every list gets its own length if and only if no name is ambiguous at any level of nesting. */
  lemma {:induction false} RoutedRightIff(fs: seq<Field>, names: seq<string>, at: nat)
    requires at <= |names| && names[at..] == LeafNames(fs)
    ensures Identity(Sources(fs, names, at), at) <==> Unambiguous(fs, names, at)
    decreases fs
  {
    hide Identity, NoEarlierMatch, Stands, Sources, LeafNames, NamesOf;
    if fs == [] {
      NothingRouted(names, at);
    } else {
      NestedStands(fs, names, at);
      RoutedRightIff(fs[1..], names, at + |NamesOf(fs[0])|);
      if fs[0].kind.Nested? {
        NestedIff(fs, names, at);
        RoutedRightIff(fs[0].kind.fields, LeafNames(fs[0].kind.fields), 0);
      } else {
        MemberIff(fs, names, at);
      }
    }
  }

  /** A list that is a member itself gets the parameter of its own. */
  lemma MemberIff(fs: seq<Field>, names: seq<string>, at: nat)
    requires fs != [] && fs[0].kind.Member? && at <= |names| && names[at..] == LeafNames(fs)
    ensures at + |NamesOf(fs[0])| <= |names| && names[at + |NamesOf(fs[0])|..] == LeafNames(fs[1..])
    ensures Identity(Sources(fs, names, at), at) <==>
            Identity(Sources(fs[1..], names, at + |NamesOf(fs[0])|), at + |NamesOf(fs[0])|)
  {
    hide Identity, Stands, LeafNames;
    NestedStands(fs, names, at);
    if IsList(fs[0].kind.t) {
      IdentityAppend([at], Sources(fs[1..], names, at + 1), at);
      OneRouted(at);
    }
  }

  /** What `Sources` passes on for a nested struct in front. */
  lemma NestedSources(fs: seq<Field>, names: seq<string>, at: nat)
    requires fs != [] && fs[0].kind.Nested? && at <= |names| && names[at..] == LeafNames(fs)
    ensures at + |NamesOf(fs[0])| <= |names| && names[at + |NamesOf(fs[0])|..] == LeafNames(fs[1..])
    ensures LeafNames(fs[0].kind.fields)[0..] == LeafNames(fs[0].kind.fields)
    ensures var xs := LeafNames(fs[0].kind.fields);
            && Stands(names, fs[0].name, xs, at) && |NamesOf(fs[0])| == |xs|
            && |Routes(names, xs)| == |Sources(fs[0].kind.fields, xs, 0)| == |xs|
            && Sources(fs, names, at) ==
               Composed(Routes(names, xs), Sources(fs[0].kind.fields, xs, 0)) +
               Sources(fs[1..], names, at + |NamesOf(fs[0])|)
  {
    hide NoEarlierMatch, Stands, FirstEnding, Routes, Composed, LeafNames, NamesOf;
    NestedStands(fs, names, at);
    var xs := LeafNames(fs[0].kind.fields);
    assert xs[0..] == xs;
    RoutesOf(names, fs[0].name, xs, at);
  }

  lemma NestedIff(fs: seq<Field>, names: seq<string>, at: nat)
    requires fs != [] && fs[0].kind.Nested? && at <= |names| && names[at..] == LeafNames(fs)
    ensures at + |NamesOf(fs[0])| <= |names| && names[at + |NamesOf(fs[0])|..] == LeafNames(fs[1..])
    ensures LeafNames(fs[0].kind.fields)[0..] == LeafNames(fs[0].kind.fields)
    ensures Identity(Sources(fs, names, at), at) <==>
            && NoEarlierMatch(names, LeafNames(fs[0].kind.fields), at)
            && Identity(Sources(fs[0].kind.fields, LeafNames(fs[0].kind.fields), 0), 0)
            && Identity(Sources(fs[1..], names, at + |NamesOf(fs[0])|), at + |NamesOf(fs[0])|)
  {
    hide Identity, NoEarlierMatch, Stands, FirstEnding, Routes, Composed, Sources, LeafNames, NamesOf;
    NestedSources(fs, names, at);
    var xs := LeafNames(fs[0].kind.fields);
    var inner, rest := Sources(fs[0].kind.fields, xs, 0), Sources(fs[1..], names, at + |NamesOf(fs[0])|);
    RoutesOf(names, fs[0].name, xs, at);
    RoutesOwnIff(names, fs[0].name, xs, at);
    ComposedIff(Routes(names, xs), inner, at);
    IdentityAppend(Composed(Routes(names, xs), inner), rest, at);
  }

  lemma NothingRouted(names: seq<string>, at: nat)
    requires at <= |names| && names[at..] == LeafNames([])
    ensures Identity(Sources([], names, at), at)
  {
  }

  lemma OneRouted(at: nat)
    ensures Identity([at], at)
  {
  }

  /** The lengths that `T_init` allocates when it is called with `lengths`. */
  function Allocates(fs: seq<Field>, lengths: seq<nat>): (ns: seq<nat>)
    requires |lengths| == |LeafNames(fs)|
    ensures |ns| == |lengths|
  {
    var names := LeafNames(fs);
    assert names[0..] == names;
    var r := Sources(fs, names, 0);
    seq(|r|, i requires 0 <= i < |r| => lengths[r[i]])
  }

  ghost predicate AllocatesAsAsked(fs: seq<Field>) {
    forall lengths :: |lengths| == |LeafNames(fs)| ==> Allocates(fs, lengths) == lengths
  }

  /**
    `T_init` allocates for every list the length passed for it, for all lengths, if and
    only if no name is ambiguous.
   */
  lemma AllocatesAsAskedIff(fs: seq<Field>)
    ensures AllocatesAsAsked(fs) <==> Unambiguous(fs, LeafNames(fs), 0)
  {
    hide Unambiguous, LeafNames, Sources;
    var names := LeafNames(fs);
    assert names[0..] == names;
    RoutedRightIff(fs, names, 0);
    var r := Sources(fs, names, 0);
    if AllocatesAsAsked(fs) {
      var own := seq(|names|, i => i);
      assert Allocates(fs, own) == own;
      forall i | 0 <= i < |r| ensures r[i] == i {
        assert Allocates(fs, own)[i] == own[r[i]] == r[i];
      }
    }
  }

  lemma {:induction false} EarlierMatch(fs: seq<Field>, names: seq<string>, at: nat, j: nat, k: nat)
    requires j < |fs| && fs[j].kind.Nested? && LeafNames(fs[j].kind.fields) != []
    requires k < at && k < |names| && EndsWith(names[k], LeafNames(fs[j].kind.fields)[0])
    ensures !Unambiguous(fs, names, at)
    decreases |fs|
  {
    if j == 0 {
      var xs := LeafNames(fs[0].kind.fields);
      assert 0 <= 0 < |xs| && 0 <= k < at + 0 && EndsWith(names[k], xs[0]);
    } else {
      EarlierMatch(fs[1..], names, at + |NamesOf(fs[0])|, j - 1, k);
    }
  }

  /** A struct with two members of the same nested type that holds a list is never routed right. */
  lemma {:induction false} SameTypeTwice(fs: seq<Field>, names: seq<string>, at: nat, i: nat, j: nat)
    requires at <= |names| && names[at..] == LeafNames(fs)
    requires i < j < |fs| && fs[i].kind == fs[j].kind && fs[i].kind.Nested? && LeafNames(fs[i].kind.fields) != []
    ensures !Unambiguous(fs, names, at)
    decreases |fs|
  {
    hide EndsWith, NoEarlierMatch, LeafNames, NamesOf;
    NestedStands(fs, names, at);
    if i == 0 {
      var xs := LeafNames(fs[0].kind.fields);
      assert names[at + 0] == fs[0].name + "_" + xs[0];
      PrefixedEnds(fs[0].name, xs[0]);
      EarlierMatch(fs[1..], names, at + |NamesOf(fs[0])|, j - 1, at);
    } else {
      SameTypeTwice(fs[1..], names, at + |NamesOf(fs[0])|, i - 1, j - 1);
    }
  }
}
