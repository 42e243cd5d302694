/** What the three readers make of lists whose length is not what a writer would have put there. */
module Malformed {
  import opened BitOps
  import opened BitString
  import opened Memory
  import opened Results
  import opened Wire
  import opened Types
  import opened Interop
  import opened ByteLevel
  import opened Encoding

  /** A list of `n` elements was read, and the reader went on to bit `next`. */
  predicate Gives(r: Option<(Val, nat)>, n: nat, next: nat) {
    r.Some? && r.value.0.VList? && |r.value.0.xs| == n && r.value.1 == next
  }

  /** The length that is stored in byte `at` and the next one; 0 when they are missing. */
  function Stored(payload: seq<byte>, at: nat): nat {
    if at + 2 <= |payload| then 256 * (payload[at] as nat) + payload[at + 1] as nat else 0
  }

  /** Bytes of an element. */
  function ElementBytes(t: Ty): (w: nat)
    ensures w > 0
  {
    match t
    case TList(k) => Size(k) / 8
    case _ => 1
  }

  /** Bytes of the whole elements of `w` bytes that the stored length counts. */
  function WholeLength(payload: seq<byte>, at: nat, w: nat): nat
    requires w > 0
  {
    Stored(payload, at) / w * w
  }

  /**
    Reading the list in byte `at`: it fails without a length; it gives the whole
    elements when they are there; otherwise it gives what there is if `cut`, or fails.
   */
  predicate Reads(r: Option<(Val, nat)>, payload: seq<byte>, at: nat, w: nat, next: nat, cut: bool)
    requires w > 0
  {
    if at + 2 > |payload| then r == None
    else if at + 2 + WholeLength(payload, at, w) <= |payload| then Gives(r, Stored(payload, at) / w, next)
    else if cut then Gives(r, |payload| - at - 2, next)
    else r == None
  }

  lemma StoredIs(payload: seq<byte>, at: nat)
    requires at + 2 <= |payload|
    ensures FromBigEndian(payload[at..at + 2]) == Stored(payload, at)
  {
    hide BitsOf, NatOf;
    var s := payload[at..at + 2];
    assert s[..1] == [payload[at]] && s[..1][..0] == [];
    assert Base256(s[..1]) == payload[at] as nat;
    Base256IsNatOf(s);
  }

  lemma {:induction false} ItemCount(w: width, b: seq<bool>, n: nat)
    requires |b| == 8 * (n * w)
    ensures |ReadItems(w, b)| == n
    decreases n
  {
    hide NatOf;
    if n > 0 {
      OneLess(n, w);
      ItemCount(w, b[8 * w..], n - 1);
    } else {
      assert |b| == 0;
    }
  }

  lemma OneLess(n: nat, w: nat)
    requires n > 0
    ensures 8 * (n * w) == 8 * w + 8 * ((n - 1) * w)
  {
    assert n * w == w + (n - 1) * w;
  }

  /** Reading a list in any dialect. */
  lemma ListRead(d: Dialect, payload: seq<byte>, t: Ty, u: nat)
    requires t.TList? || t.TBlob?
    ensures var at, w := (u + 7) / 8, ElementBytes(t);
            var len := if d.rawLength then Stored(payload, at) else WholeLength(payload, at, w);
            Reads(Read(d, BitsOf(payload), t, u), payload, at, w, Next(d, Tokens(t)[0], u, 16 + 8 * len),
                  t.TBlob? && d.truncates)
  {
    hide BitsOf, FromBigEndian, Read, ReadLeaf, ReadItems, Next, Align, Stored, WholePart, Values, Tokens, ElementBytes;
    var at, w := (u + 7) / 8, ElementBytes(t);
    ByteAligned(u);
    ElementSize(t);
    var tok := Tokens(t)[0];
    ReadSequence(d, BitsOf(payload), t, u);
    ReadLeafBytes(d, payload, tok, u);
    if at + 2 <= |payload| {
      var len := Stored(payload, at);
      StoredIs(payload, at);
      ElementCount(len, w);
      WholePartIs(len, w);
      if at + 2 + len / w * w <= |payload| {
        ItemCount(w, BitsOf(payload[at + 2..at + 2 + len / w * w]), len / w);
      } else if t.TBlob? {
        ItemCount(1, BitsOf(payload[at + 2..|payload|]), |payload| - at - 2);
      }
    }
  }

  lemma WholePartIs(len: nat, w: width)
    ensures WholePart(len, w) == len - len % w
  {
  }

  lemma ElementSize(t: Ty)
    requires t.TList? || t.TBlob?
    ensures |Tokens(t)| == 1 && Tokens(t)[0].List? && Tokens(t)[0].w == Width(Element(t)) == ElementBytes(t)
    ensures Tokens(t)[0].blob == t.TBlob?
    ensures t.TBlob? ==> ElementBytes(t) == 1
  {
  }

  lemma ByteAligned(u: nat)
    ensures Align(u) == 8 * ((u + 7) / 8)
  {
    assert Align(u) % 8 == 0 && u <= Align(u) < u + 8;
  }

  /**
    Python steps over whole elements, fails on a list that is cut off, and gives
    what there is of a str or bytes.
   */
  lemma PythonLists(payload: seq<byte>, t: Ty, u: nat)
    requires t.TList? || t.TBlob?
    ensures var at, w := (u + 7) / 8, ElementBytes(t);
            Reads(Read(PYTHON_UNPACK, BitsOf(payload), t, u), payload, at, w,
                  8 * (at + 2 + WholeLength(payload, at, w)), t.TBlob?)
  {
    hide BitsOf, Read, Reads, Stored, Align, ElementBytes, Tokens;
    ElementSize(t);
    ByteAligned(u);
    ListRead(PYTHON_UNPACK, payload, t, u);
  }

  /** The emitted C steps over the stored length, even when it is not a whole number of elements. */
  lemma CLists(payload: seq<byte>, t: Ty, u: nat)
    requires t.TList? || t.TBlob?
    ensures var at, w := (u + 7) / 8, ElementBytes(t);
            Reads(Read(EMITTED_C, BitsOf(payload), t, u), payload, at, w, 8 * (at + 2 + Stored(payload, at)), false)
  {
    hide BitsOf, Read, Reads, Stored, Align, ElementBytes, Tokens;
    ElementSize(t);
    ByteAligned(u);
    ListRead(EMITTED_C, payload, t, u);
  }

  /** C# steps over whole elements, keeps its bit offset, and fails on whatever is cut off. */
  lemma CSharpLists(payload: seq<byte>, t: Ty, u: nat)
    requires t.TList? || t.TBlob?
    ensures var at, w := (u + 7) / 8, ElementBytes(t);
            Reads(Read(CSHARP_DESERIALIZE, BitsOf(payload), t, u), payload, at, w,
                  u + 16 + 8 * WholeLength(payload, at, w), false)
  {
    hide BitsOf, Read, Reads, Stored, Align, ElementBytes, Tokens;
    ElementSize(t);
    ListRead(CSHARP_DESERIALIZE, payload, t, u);
  }
}
