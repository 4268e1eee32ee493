/** The head/tail layout that `encodeParams` produces, as functions of the
    encoded parts: the head holds one slot per part (an offset word for a
    dynamic part, the padded encoding for a static one), the tail holds the
    padded bodies of the dynamic parts in order. */
module Layout {
  import opened Bytes
  import opened Sequences

  /** One entry of `parts`: the coder's `dynamic` flag and the encoded bytes. */
  datatype Part = Part(dynamic: bool, value: seq<byte>)

  /** The bytes a part takes in the head. */
  function SlotSize(p: Part): nat
  {
    if p.dynamic then 32 else Align32(|p.value|)
  }

  /** `staticSize`: the size of the head region. */
  function HeadSize(ps: seq<Part>): (n: nat)
  {
    if |ps| == 0 then 0 else SlotSize(ps[0]) + HeadSize(ps[1..])
  }

  /** `dynamicSize`: the size of the tail region. */
  function TailSize(ps: seq<Part>): (n: nat)
  {
    if |ps| == 0 then 0
    else BodySize(ps[0]) + TailSize(ps[1..])
  }

  /** What the walk writes into the head for part `p` when the tail cursor
      is at `t`: the offset word for a dynamic part, the padded encoding for a
      static one. */
  function Slot(p: Part, t: nat): (s: seq<byte>)
    ensures |s| == SlotSize(p)
  {
    if p.dynamic then Word(t) else Padded(p.value)
  }

  /** The bytes a part takes in the tail. */
  function BodySize(p: Part): nat
  {
    if p.dynamic then Align32(|p.value|) else 0
  }

  /** The tail cursor after part `p` when it was at `t`. */
  function Advance(p: Part, t: nat): nat
  {
    t + BodySize(p)
  }

  /** The bytes part `p` adds to the tail: its padded encoding when it is
      dynamic, nothing otherwise. */
  function Body(p: Part): (b: seq<byte>)
    ensures |b| == BodySize(p)
  {
    if p.dynamic then Padded(p.value) else []
  }

  /** The head slots, one per part, written while the tail cursor starts at
      `t` and advances past each dynamic body. */
  function Slots(ps: seq<Part>, t: nat): (ss: seq<seq<byte>>)
    ensures |ss| == |ps|
  {
    if |ps| == 0 then [] else [Slot(ps[0], t)] + Slots(ps[1..], Advance(ps[0], t))
  }

  /** The tail bodies, one per part. */
  function Bodies(ps: seq<Part>): (bs: seq<seq<byte>>)
    ensures |bs| == |ps|
    ensures forall i :: 0 <= i < |ps| ==> bs[i] == Body(ps[i])
  {
    seq(|ps|, i requires 0 <= i < |ps| => Body(ps[i]))
  }

  /** The head region written when the tail cursor starts at `t`. */
  function Head(ps: seq<Part>, t: nat): (h: seq<byte>)
    ensures |h| == HeadSize(ps)
  {
    HeadLength(ps, t);
    Concat(Slots(ps, t))
  }

  /** The tail region: the padded bodies of the dynamic parts, in order. */
  function Tail(ps: seq<Part>): (b: seq<byte>)
    ensures |b| == TailSize(ps)
  {
    TailLength(ps);
    Concat(Bodies(ps))
  }

  /** The whole buffer: the head, with the tail cursor starting right after it,
      then the tail. */
  function Encoded(ps: seq<Part>): (b: seq<byte>)
    ensures |b| == HeadSize(ps) + TailSize(ps)
  {
    Head(ps, HeadSize(ps)) + Tail(ps)
  }

  // ---- sizes ----

  lemma {:induction false} HeadLength(ps: seq<Part>, t: nat)
    ensures |Concat(Slots(ps, t))| == HeadSize(ps)
  {
    if |ps| > 0 {
      var first, rest := Slot(ps[0], t), Slots(ps[1..], Advance(ps[0], t));
      var ss := [first] + rest;
      assert ss[0] == first && ss[1..] == rest;
      HeadLength(ps[1..], Advance(ps[0], t));
    }
  }

  lemma {:induction false} TailLength(ps: seq<Part>)
    ensures |Concat(Bodies(ps))| == TailSize(ps)
  {
    if |ps| > 0 {
      assert Bodies(ps)[1..] == Bodies(ps[1..]);
      TailLength(ps[1..]);
    }
  }

  lemma {:induction false} SizesConcat(a: seq<Part>, b: seq<Part>)
    ensures HeadSize(a + b) == HeadSize(a) + HeadSize(b)
    ensures TailSize(a + b) == TailSize(a) + TailSize(b)
  {
    if |a| == 0 {
      assert a + b == b;
    } else {
      var ab := a + b;
      assert ab[0] == a[0];
      assert ab[1..] == a[1..] + b;
      SizesConcat(a[1..], b);
    }
  }

  /** Both regions, and so the whole buffer, are whole numbers of 32-byte
      words: every summand is 32 or went through `alignSize`. */
  lemma {:induction false} SizesAligned(ps: seq<Part>)
    ensures HeadSize(ps) % 32 == 0 && TailSize(ps) % 32 == 0
  {
    if |ps| > 0 {
      SizesAligned(ps[1..]);
      AlignSizeIsLeastMultiple(|ps[0].value|, 0);
      SumAligned(SlotSize(ps[0]), HeadSize(ps[1..]));
      SumAligned(BodySize(ps[0]), TailSize(ps[1..]));
    }
  }

  lemma EncodedAligned(ps: seq<Part>)
    ensures |Encoded(ps)| % 32 == 0
  {
    SizesAligned(ps);
    SumAligned(HeadSize(ps), TailSize(ps));
  }

  /** A prefix of the parts takes no more room than all of them. */
  lemma PrefixSizes(ps: seq<Part>, k: nat)
    requires k <= |ps|
    ensures HeadSize(ps[..k]) <= HeadSize(ps) && TailSize(ps[..k]) <= TailSize(ps)
  {
    assert ps == ps[..k] + ps[k..];
    SizesConcat(ps[..k], ps[k..]);
  }

  /** The cursors advance part by part: by the slot size in the head, by the
      padded body of a dynamic part in the tail. */
  lemma CursorsAdvance(ps: seq<Part>, i: nat)
    requires i < |ps|
    ensures HeadSize(ps[..i + 1]) == HeadSize(ps[..i]) + SlotSize(ps[i])
    ensures TailSize(ps[..i + 1]) == TailSize(ps[..i]) + BodySize(ps[i])
  {
    var p := ps[i];
    assert ps[..i + 1] == ps[..i] + [p];
    assert [p][1..] == [];
    SizesConcat(ps[..i], [p]);
  }

  // ---- where each part lands ----

  /** The slots written for a prefix of the parts are a prefix of the slots. */
  lemma {:induction false} SlotsPrefix(ps: seq<Part>, t: nat, i: nat)
    requires i <= |ps|
    ensures Slots(ps, t)[..i] == Slots(ps[..i], t)
  {
    if i > 0 {
      var t' := Advance(ps[0], t);
      var pre := ps[..i];
      assert pre[0] == ps[0] && pre[1..] == ps[1..][..i - 1];
      SlotsPrefix(ps[1..], t', i - 1);
      assert Slots(ps, t)[..i] == [Slot(ps[0], t)] + Slots(ps[1..], t')[..i - 1];
    }
  }

  /** Slot `i` is written with the tail cursor advanced past the bodies of
      the parts before it. */
  lemma {:induction false} SlotsIndex(ps: seq<Part>, t: nat, i: nat)
    requires i < |ps|
    ensures Slots(ps, t)[i] == Slot(ps[i], t + TailSize(ps[..i]))
  {
    if i == 0 {
      assert ps[..0] == [];
    } else {
      var t' := Advance(ps[0], t);
      var pre := ps[..i];
      assert pre[0] == ps[0] && pre[1..] == ps[1..][..i - 1];
      assert TailSize(pre) == BodySize(ps[0]) + TailSize(pre[1..]);
      SlotsIndex(ps[1..], t', i - 1);
      assert t' + TailSize(ps[1..][..i - 1]) == t + TailSize(pre);
      assert Slots(ps, t)[i] == Slots(ps[1..], t')[i - 1];
    }
  }

  /** The slots before part `i` take `HeadSize(ps[..i])` bytes. */
  lemma SlotsOffset(ps: seq<Part>, t: nat, i: nat)
    requires i <= |ps|
    ensures |Concat(Slots(ps, t)[..i])| == HeadSize(ps[..i])
  {
    SlotsPrefix(ps, t, i);
    HeadLength(ps[..i], t);
  }

  lemma SlotLength(ps: seq<Part>, t: nat, i: nat)
    requires i < |ps|
    ensures |Slots(ps, t)[i]| == SlotSize(ps[i])
  {
    SlotsIndex(ps, t, i);
  }

  /** Among the concatenated slots, slot `i` starts at `HeadSize(ps[..i])`
      and was written with the tail cursor advanced past the bodies of the
      parts before it. */
  lemma SlotInSlots(ps: seq<Part>, t: nat, i: nat)
    requires i < |ps|
    ensures HeadSize(ps[..i]) + SlotSize(ps[i]) <= |Concat(Slots(ps, t))|
    ensures Concat(Slots(ps, t))[HeadSize(ps[..i])..HeadSize(ps[..i]) + SlotSize(ps[i])] == Slot(ps[i], t + TailSize(ps[..i]))
  {
    ConcatAt(Slots(ps, t), i);
    SlotsOffset(ps, t, i);
    SlotLength(ps, t, i);
    SlotsIndex(ps, t, i);
  }

  /** In a head written from tail cursor `t`, part `i`'s slot lies at its
      head offset. */
  lemma SlotInHeadFrom(ps: seq<Part>, t: nat, i: nat)
    requires i < |ps|
    ensures HeadSize(ps[..i]) + SlotSize(ps[i]) <= HeadSize(ps)
    ensures Head(ps, t)[HeadSize(ps[..i])..HeadSize(ps[..i]) + SlotSize(ps[i])] == Slot(ps[i], t + TailSize(ps[..i]))
  {
    SlotInSlots(ps, t, i);
    HeadLength(ps, t);
  }

  /** The bodies before part `i` take `TailSize(ps[..i])` bytes. */
  lemma BodiesOffset(ps: seq<Part>, i: nat)
    requires i <= |ps|
    ensures |Concat(Bodies(ps)[..i])| == TailSize(ps[..i])
  {
    assert Bodies(ps)[..i] == Bodies(ps[..i]);
    TailLength(ps[..i]);
  }

  /** Among the concatenated bodies, body `i` starts at `TailSize(ps[..i])`. */
  lemma BodyInBodies(ps: seq<Part>, i: nat)
    requires i < |ps|
    ensures TailSize(ps[..i]) + BodySize(ps[i]) <= |Concat(Bodies(ps))|
    ensures Concat(Bodies(ps))[TailSize(ps[..i])..TailSize(ps[..i]) + BodySize(ps[i])] == Body(ps[i])
  {
    ConcatAt(Bodies(ps), i);
    BodiesOffset(ps, i);
  }

  /** Part `i`'s body lies at its offset in the tail. */
  lemma BodyInTailRegion(ps: seq<Part>, i: nat)
    requires i < |ps|
    ensures TailSize(ps[..i]) + BodySize(ps[i]) <= |Tail(ps)|
    ensures Tail(ps)[TailSize(ps[..i])..TailSize(ps[..i]) + BodySize(ps[i])] == Body(ps[i])
  {
    BodyInBodies(ps, i);
    TailLength(ps);
  }
}
