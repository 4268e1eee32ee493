/** Where each encoded part lands in the buffer `encodeParams` returns, and
    the offset words of the dynamic parts. */
module Offsets {
  import opened Bytes
  import opened Sequences
  import opened Layout

  /** Part `i`'s slot lies at its head offset: the padded bytes of a static
      part, or the word holding a dynamic part's tail offset. */
  lemma SlotInHead(ps: seq<Part>, i: nat)
    requires i < |ps|
    ensures HeadOffset(ps, i) + SlotSize(ps[i]) <= |Encoded(ps)|
    ensures Encoded(ps)[HeadOffset(ps, i)..HeadOffset(ps, i) + SlotSize(ps[i])] == Slot(ps[i], TailOffset(ps, i))
  {
    var h, tl := Head(ps, HeadSize(ps)), Tail(ps);
    var a, b := HeadOffset(ps, i), HeadOffset(ps, i) + SlotSize(ps[i]);
    var x := Slot(ps[i], TailOffset(ps, i));
    SlotInHeadFrom(ps, HeadSize(ps), i);
    assert TailOffset(ps, i) == HeadSize(ps) + TailSize(ps[..i]);
    assert h[a..b] == x;
    assert Encoded(ps) == h + tl;
    SliceOfWhole(Encoded(ps), h, tl, a, b, x);
  }

  /** Part `i`'s body lies at its tail offset, after the head. */
  lemma BodyInTail(ps: seq<Part>, i: nat)
    requires i < |ps|
    ensures HeadSize(ps) + TailSize(ps[..i]) + BodySize(ps[i]) <= |Encoded(ps)|
    ensures Encoded(ps)[HeadSize(ps) + TailSize(ps[..i])..HeadSize(ps) + TailSize(ps[..i]) + BodySize(ps[i])] == Body(ps[i])
  {
    var h, tl := Head(ps, HeadSize(ps)), Tail(ps);
    BodyInTailRegion(ps, i);
    SliceShift(h, tl, TailSize(ps[..i]), BodySize(ps[i]), Body(ps[i]));
    assert |h| == HeadSize(ps);
    assert Encoded(ps) == h + tl;
  }

  /** A static part's padded encoding lies at its head offset. */
  lemma StaticPartAt(ps: seq<Part>, i: nat)
    requires i < |ps| && !ps[i].dynamic
    ensures SlotHolds(Encoded(ps), HeadOffset(ps, i), ps[i].value)
  {
    SlotInHead(ps, i);
  }

  /** A dynamic part's head slot holds the word of its tail offset, and its
      padded encoding lies at that offset. */
  lemma DynamicPartAt(ps: seq<Part>, i: nat)
    requires i < |ps| && ps[i].dynamic
    ensures HeadOffset(ps, i) + 32 <= |Encoded(ps)|
    ensures Encoded(ps)[HeadOffset(ps, i)..HeadOffset(ps, i) + 32] == Word(TailOffset(ps, i))
    ensures TailOffset(ps, i) <= |Encoded(ps)|
    ensures SlotHolds(Encoded(ps), TailOffset(ps, i), ps[i].value)
  {
    SlotInHead(ps, i);
    BodyInTail(ps, i);
  }

  lemma {:induction false} NoDynamicNoTail(ps: seq<Part>)
    requires forall k :: 0 <= k < |ps| ==> !ps[k].dynamic
    ensures TailSize(ps) == 0
  {
    if |ps| > 0 {
      NoDynamicNoTail(ps[1..]);
    }
  }

  /** Between parts `i` and `j` the tail cursor advances by the padded bodies
      of the dynamic parts in `ps[i..j]`. */
  lemma TailOffsetsSplit(ps: seq<Part>, i: nat, j: nat)
    requires i <= j <= |ps|
    ensures TailSize(ps[..j]) == TailSize(ps[..i]) + TailSize(ps[i..j])
  {
    assert ps[..j] == ps[..i] + ps[i..j];
    SizesConcat(ps[..i], ps[i..j]);
  }

  /** Where part `i`'s slot starts: the head cursor at that point. */
  function HeadOffset(ps: seq<Part>, i: nat): nat
    requires i <= |ps|
  {
    HeadSize(ps[..i])
  }

  /** The offset word the walk writes for part `i` when it is dynamic: the
      tail cursor at that point. */
  function TailOffset(ps: seq<Part>, i: nat): nat
    requires i <= |ps|
  {
    HeadSize(ps) + TailSize(ps[..i])
  }

  /** The first dynamic part's offset is `staticSize`. */
  lemma FirstOffset(ps: seq<Part>, i: nat)
    requires i < |ps| && ps[i].dynamic
    requires forall k :: 0 <= k < i ==> !ps[k].dynamic
    ensures TailOffset(ps, i) == HeadSize(ps)
  {
    NoDynamicNoTail(ps[..i]);
  }

  /** Each later dynamic offset is the previous one plus the padded size of
      the previous dynamic body. */
  lemma NextOffset(ps: seq<Part>, i: nat, j: nat)
    requires i < j < |ps| && ps[i].dynamic && ps[j].dynamic
    requires forall k :: i < k < j ==> !ps[k].dynamic
    ensures TailOffset(ps, j) == TailOffset(ps, i) + Align32(|ps[i].value|)
  {
    CursorsAdvance(ps, i);
    TailOffsetsSplit(ps, i + 1, j);
    NoDynamicNoTail(ps[i + 1..j]);
  }

  /** Dynamic offsets point into the tail, each body ends before the next
      one starts and inside the buffer, and the offsets increase with the
      declaration order: strictly when the bodies are non-empty. */
  lemma OffsetsOrdered(ps: seq<Part>, i: nat, j: nat)
    requires i < j < |ps| && ps[i].dynamic && ps[j].dynamic
    ensures HeadSize(ps) <= TailOffset(ps, i)
    ensures TailOffset(ps, i) + Align32(|ps[i].value|) <= TailOffset(ps, j)
    ensures TailOffset(ps, j) + Align32(|ps[j].value|) <= |Encoded(ps)|
    ensures |ps[i].value| > 0 ==> TailOffset(ps, i) < TailOffset(ps, j)
  {
    CursorsAdvance(ps, i);
    TailOffsetsSplit(ps, i + 1, j);
    BodyInTail(ps, j);
  }
}
