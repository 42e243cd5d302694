/** The C bump allocator with suffix gaps (`struct CompostAlloc`). */
module Allocator {
  import opened Results
  import opened Layout

  /** A block handed out, and the gap left behind it. */
  datatype Region = Region(ptr: nat, len: nat, gap: nat)

  /** Blocks follow each other from `start` on with exactly the recorded gaps, ending at `end`. */
  ghost predicate Chained(rs: seq<Region>, start: nat, end: nat)
    decreases |rs|
  {
    if rs == [] then start == end
    else
      rs[0].ptr == start && Chained(rs[1..], start + rs[0].len + rs[0].gap, end)
  }

  ghost predicate Inside(rs: seq<Region>, lo: nat, hi: nat) {
    forall i :: 0 <= i < |rs| ==> lo <= rs[i].ptr && rs[i].ptr + rs[i].len <= hi
  }

  lemma {:induction false} ChainedMore(rs: seq<Region>, start: nat, end: nat, r: Region)
    requires Chained(rs, start, end) && r.ptr == end
    ensures Chained(rs + [r], start, end + r.len + r.gap)
    decreases |rs|
  {
    if rs == [] {
      assert (rs + [r])[1..] == [];
    } else {
      ChainedMore(rs[1..], start + rs[0].len + rs[0].gap, end, r);
      assert (rs + [r])[1..] == rs[1..] + [r];
    }
  }

  lemma {:induction false} ChainedFrom(rs: seq<Region>, start: nat, end: nat, j: nat)
    requires Chained(rs, start, end) && j < |rs|
    ensures start <= rs[j].ptr
    decreases |rs|
  {
    if j > 0 {
      ChainedFrom(rs[1..], start + rs[0].len + rs[0].gap, end, j - 1);
    }
  }

  /** Blocks do not overlap, come in increasing order, and neighbours are exactly the gap apart. */
  lemma {:induction false} Disjoint(rs: seq<Region>, start: nat, end: nat, i: nat, j: nat)
    requires Chained(rs, start, end) && i < j < |rs|
    ensures rs[i].ptr + rs[i].len + rs[i].gap <= rs[j].ptr
    ensures j == i + 1 ==> rs[i].ptr + rs[i].len + rs[i].gap == rs[j].ptr
    decreases |rs|
  {
    var next := start + rs[0].len + rs[0].gap;
    if i > 0 {
      Disjoint(rs[1..], next, end, i - 1, j - 1);
    } else {
      ChainedFrom(rs[1..], next, end, j - 1);
    }
  }

  class Alloc {
    var ptr: nat
    var suffixes: Option<seq<nat>>
    var suffixesLen: nat
    var ctr: nat
    var bufPtr: nat
    var bufLen: nat
    /** Everything handed out since the last initialisation or reset. */
    ghost var regions: seq<Region>

    ghost predicate Valid()
      reads this
    {
      && Chained(regions, bufPtr, ptr) && Inside(regions, bufPtr, bufPtr + bufLen)
      && ctr == |regions| % 65536
      && (suffixes.None? ==> suffixesLen == 0)
      && (suffixes.Some? ==> suffixesLen <= |suffixes.value|)
    }

    /** `compost_alloc_init` */
    constructor (buffer: nat, len: nat)
      ensures Valid() && regions == [] && ptr == bufPtr == buffer && bufLen == len
      ensures suffixes == None && suffixesLen == 0 && ctr == 0
    {
      ptr, suffixes, suffixesLen, ctr := buffer, None, 0, 0;
      bufPtr, bufLen := buffer, len;
      regions := [];
    }

    /** `compost_alloc_set_suffixes` */
    method SetSuffixes(values: seq<nat>, len: nat)
      requires Valid() && len <= |values|
      modifies `suffixes, `suffixesLen
      ensures Valid() && suffixes == Some(values) && suffixesLen == len
    {
      suffixes, suffixesLen := Some(values), len;
    }

    /** `compost_alloc_reset` */
    method Reset()
      requires Valid()
      modifies `ptr, `suffixes, `suffixesLen, `ctr, `regions
      ensures Valid() && regions == [] && ptr == bufPtr
      ensures suffixes == None && suffixesLen == 0 && ctr == 0
    {
      ptr, suffixes, suffixesLen, ctr := bufPtr, None, 0, 0;
      regions := [];
    }

    /** An allocation of `len` bytes would be refused. */
    predicate Refuses(len: nat)
      reads this
    {
      ptr + len > bufPtr + bufLen || (suffixes.Some? && ctr >= suffixesLen)
    }

    /** The gap that the next allocation leaves behind itself. */
    function Gap(): nat
      requires suffixes.Some? ==> suffixesLen <= |suffixes.value| && ctr < suffixesLen
      requires suffixes.None? ==> suffixesLen == 0
      reads this
    {
      if suffixesLen > 0 then suffixes.value[ctr] else 0
    }

    /** `compost_alloc_next` */
    method Next(len: nat) returns (r: Option<nat>)
      requires Valid()
      modifies `ptr, `ctr, `regions
      ensures Valid()
      ensures r.None? <==> old(Refuses(len))
      ensures r.None? ==> ptr == old(ptr) && ctr == old(ctr) && regions == old(regions)
      ensures r.Some? ==>
                && r.value == old(ptr) && ptr == old(ptr) + len + old(Gap())
                && ctr == (old(ctr) + 1) % 65536
                && regions == old(regions) + [Region(r.value, len, old(Gap()))]
      ensures r.Some? ==> bufPtr <= r.value && r.value + len <= bufPtr + bufLen
    {
      var capacity := bufLen as int - (ptr - bufPtr);
      if len > capacity || (suffixes.Some? && ctr >= suffixesLen) {
        return None;
      }
      ghost var region := Region(ptr, len, Gap());
      ChainedMore(regions, bufPtr, ptr, region);
      if regions == [] {
        assert bufPtr == ptr;
      } else {
        ChainedEnd(regions, bufPtr, ptr);
      }
      r := Some(ptr);
      ptr := ptr + len;
      if suffixesLen > 0 {
        ptr := ptr + suffixes.value[ctr];
      }
      ctr := (ctr + 1) % 65536;
      regions := regions + [region];
    }
  }

  lemma {:induction false} ChainedEnd(rs: seq<Region>, start: nat, end: nat)
    requires Chained(rs, start, end)
    ensures start <= end
    decreases |rs|
  {
    if rs != [] {
      ChainedEnd(rs[1..], start + rs[0].len + rs[0].gap, end);
    }
  }

  /** Blocks of `ns` bytes at `starts` end before `end`. */
  predicate AllFit(starts: seq<nat>, ns: seq<nat>, end: nat) {
    |starts| == |ns| && forall i :: 0 <= i < |ns| ==> starts[i] + ns[i] <= end
  }

  /**
    What successive allocations of `ns` bytes from `p` on get when blocks have to
    end before `end`. A refused block moves nothing, so the next one stands where
    it would have stood, and the gap goes to the next block that is granted.
   */
  function Grants(p: nat, gaps: seq<nat>, ns: seq<nat>, end: nat): (r: seq<Option<nat>>)
    requires |gaps| >= |ns|
    ensures |r| == |ns|
    decreases |ns|
  {
    if ns == [] then []
    else if p + ns[0] > end then [None] + Grants(p, gaps, ns[1..], end)
    else [Some(p)] + Grants(p + ns[0] + gaps[0], gaps[1..], ns[1..], end)
  }

  predicate AllGranted(blocks: seq<Option<nat>>) {
    forall i :: 0 <= i < |blocks| ==> blocks[i].Some?
  }

  /** Nothing is refused exactly when the blocks fit one behind the other, and then they stand there. */
  lemma {:induction false} GrantedIff(p: nat, gaps: seq<nat>, ns: seq<nat>, end: nat)
    requires |gaps| == |ns|
    ensures AllGranted(Grants(p, gaps, ns, end)) <==> AllFit(Spread(p, [0] + gaps, ns), ns, end)
    ensures AllGranted(Grants(p, gaps, ns, end)) ==>
              forall i :: 0 <= i < |ns| ==> Grants(p, gaps, ns, end)[i] == Some(Spread(p, [0] + gaps, ns)[i])
    decreases |ns|
  {
    hide Grants, Spread, AllGranted, AllFit;
    if ns == [] {
      NothingAllocated(p, gaps, end);
    } else {
      var next := p + ns[0] + gaps[0];
      GrantsStep(p, gaps, ns, end);
      SpreadStep(p, gaps, ns);
      ConsFit(p, Spread(next, [0] + gaps[1..], ns[1..]), ns, end);
      if p + ns[0] > end {
        ConsGranted(None, Grants(p, gaps, ns[1..], end));
      } else {
        GrantedIff(next, gaps[1..], ns[1..], end);
        ConsGranted(Some(p), Grants(next, gaps[1..], ns[1..], end));
      }
    }
  }

  lemma NothingAllocated(p: nat, gaps: seq<nat>, end: nat)
    ensures AllGranted(Grants(p, gaps, [], end)) && AllFit(Spread(p, [0] + gaps, []), [], end)
  {
  }

  lemma ConsGranted(x: Option<nat>, b: seq<Option<nat>>)
    ensures AllGranted([x] + b) <==> x.Some? && AllGranted(b)
  {
    assert ([x] + b)[0] == x && forall i :: 0 <= i < |b| ==> ([x] + b)[i + 1] == b[i];
  }

  lemma ConsFit(p: nat, s: seq<nat>, ns: seq<nat>, end: nat)
    requires ns != [] && |s| == |ns| - 1
    ensures AllFit([p] + s, ns, end) <==> p + ns[0] <= end && AllFit(s, ns[1..], end)
  {
    assert ([p] + s)[0] == p && forall i :: 0 <= i < |s| ==> ([p] + s)[i + 1] == s[i] && ns[1..][i] == ns[i + 1];
  }

  /** Granted blocks end before `end` and follow each other, whatever was refused between them. */
  lemma {:induction false} GrantsApart(p: nat, gaps: seq<nat>, ns: seq<nat>, end: nat, i: nat, j: nat)
    requires |gaps| >= |ns| && i <= j < |ns|
    requires Grants(p, gaps, ns, end)[i].Some? && Grants(p, gaps, ns, end)[j].Some?
    ensures p <= Grants(p, gaps, ns, end)[i].value <= Grants(p, gaps, ns, end)[j].value
    ensures Grants(p, gaps, ns, end)[j].value + ns[j] <= end
    ensures i < j ==> Grants(p, gaps, ns, end)[i].value + ns[i] <= Grants(p, gaps, ns, end)[j].value
    decreases |ns|
  {
    if j > 0 {
      var next, rest := if p + ns[0] > end then p else p + ns[0] + gaps[0], if p + ns[0] > end then gaps else gaps[1..];
      assert Grants(p, gaps, ns, end)[1..] == Grants(next, rest, ns[1..], end);
      GrantsApart(next, rest, ns[1..], end, if i > 0 then i - 1 else j - 1, j - 1);
    }
  }

  /**
    The allocations that `T_init` makes, one per list in declaration order, on a
    fresh allocator whose suffixes are `gaps`. It goes on after a refused block,
    and the suffix limit is never hit.
   */
  method AllocateAll(alloc: Alloc, gaps: seq<nat>, ns: seq<nat>) returns (blocks: seq<Option<nat>>)
    requires alloc.Valid() && alloc.regions == [] && |gaps| == |ns| < 65536
    requires alloc.suffixes == Some(gaps) && alloc.suffixesLen == |gaps|
    modifies alloc`ptr, alloc`ctr, alloc`regions
    ensures alloc.Valid() && blocks == Grants(alloc.bufPtr, gaps, ns, alloc.bufPtr + alloc.bufLen)
  {
    hide Grants, Chained, Inside;
    ghost var end := alloc.bufPtr + alloc.bufLen;
    ghost var all := Grants(alloc.bufPtr, gaps, ns, end);
    FreshPointer(alloc);
    blocks := [];
    assert gaps[0..] == gaps && ns[0..] == ns && [] + all == all;
    for i := 0 to |ns|
      invariant alloc.Valid() && alloc.ctr == |alloc.regions| <= i == |blocks|
      invariant alloc.bufPtr == old(alloc.bufPtr) && alloc.bufLen == old(alloc.bufLen)
      invariant alloc.suffixes == Some(gaps) && alloc.suffixesLen == |gaps|
      invariant blocks + Grants(alloc.ptr, gaps[alloc.ctr..], ns[i..], end) == all
    {
      NextGrant(alloc.ptr, gaps, alloc.ctr, ns, i, end, blocks);
      var block := alloc.Next(ns[i]);
      blocks := blocks + [block];
    }
    NothingLeft(alloc.ptr, gaps[alloc.ctr..], ns[|ns|..], end);
  }

  lemma GrantsStep(p: nat, gaps: seq<nat>, ns: seq<nat>, end: nat)
    requires ns != [] && |gaps| >= |ns|
    ensures Grants(p, gaps, ns, end) ==
            if p + ns[0] > end then [None] + Grants(p, gaps, ns[1..], end)
            else [Some(p)] + Grants(p + ns[0] + gaps[0], gaps[1..], ns[1..], end)
  {
  }

  lemma NextGrant(p: nat, gaps: seq<nat>, ctr: nat, ns: seq<nat>, i: nat, end: nat, blocks: seq<Option<nat>>)
    requires ctr <= i < |ns| == |gaps|
    ensures blocks + Grants(p, gaps[ctr..], ns[i..], end) ==
            if p + ns[i] > end then blocks + [None] + Grants(p, gaps[ctr..], ns[i + 1..], end)
            else blocks + [Some(p)] + Grants(p + ns[i] + gaps[ctr], gaps[ctr + 1..], ns[i + 1..], end)
  {
    hide Grants;
    assert ns[i..][1..] == ns[i + 1..] && gaps[ctr..][1..] == gaps[ctr + 1..];
    GrantsStep(p, gaps[ctr..], ns[i..], end);
  }

  lemma FreshPointer(alloc: Alloc)
    requires alloc.Valid() && alloc.regions == []
    ensures alloc.ptr == alloc.bufPtr && alloc.ctr == 0
  {
  }

  lemma NothingLeft(p: nat, gaps: seq<nat>, ns: seq<nat>, end: nat)
    requires ns == []
    ensures Grants(p, gaps, ns, end) == []
  {
  }

  /** Gaps before blocks and gaps behind blocks. */
  lemma SpreadStep(p: nat, gaps: seq<nat>, ns: seq<nat>)
    requires ns != [] && |gaps| == |ns|
    ensures Spread(p, [0] + gaps, ns) == [p] + Spread(p + ns[0] + gaps[0], [0] + gaps[1..], ns[1..])
  {
    assert ([0] + gaps)[1..] == gaps;
    if |ns| > 1 {
      assert ([0] + gaps[1..])[1..] == gaps[1..];
    }
  }
}
