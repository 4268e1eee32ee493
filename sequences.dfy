/** Concatenation of a list of sequences, and where each piece lands in the
    result. The buffer the encoder fills is such a concatenation, piece by
    piece, so these facts are stated once here for any element type. */
module Sequences {

  /** The pieces laid end to end. */
  function Concat<T>(ss: seq<seq<T>>): (r: seq<T>)
  {
    if |ss| == 0 then [] else ss[0] + Concat(ss[1..])
  }

  lemma Middle<T>(x: seq<T>, y: seq<T>, z: seq<T>)
    ensures (x + y + z)[|x|..|x| + |y|] == y
  {
  }

  lemma InPrefix<T>(h: seq<T>, tl: seq<T>, a: nat, b: nat)
    requires a <= b <= |h|
    ensures (h + tl)[a..b] == h[a..b]
  {
  }

  /** A window of a slice is the matching window of the whole. */
  lemma SubSlice<T>(s: seq<T>, off: nat, e: seq<T>, a: nat, b: nat)
    requires off + |e| <= |s| && s[off..off + |e|] == e
    requires a <= b <= |e|
    ensures s[off + a..off + b] == e[a..b]
  {
    forall k | 0 <= k < b - a
      ensures s[off + a..off + b][k] == e[a..b][k]
    {
      assert e[a + k] == s[off..off + |e|][a + k];
    }
  }

  lemma InSuffix<T>(h: seq<T>, tl: seq<T>, a: nat, b: nat)
    requires a <= b <= |tl|
    ensures (h + tl)[|h| + a..|h| + b] == tl[a..b]
  {
  }

  /** Concatenation distributes over appending lists of pieces. */
  lemma {:induction false} ConcatAppend<T>(a: seq<seq<T>>, b: seq<seq<T>>)
    ensures Concat(a + b) == Concat(a) + Concat(b)
  {
    if |a| == 0 {
      assert a + b == b;
    } else {
      var ab := a + b;
      assert ab[0] == a[0];
      assert ab[1..] == a[1..] + b;
      ConcatAppend(a[1..], b);
      assert Concat(ab) == a[0] + (Concat(a[1..]) + Concat(b));
    }
  }

  /** Adding one more piece appends it. */
  lemma ConcatSnoc<T>(ss: seq<seq<T>>, i: nat)
    requires i < |ss|
    ensures Concat(ss[..i + 1]) == Concat(ss[..i]) + ss[i]
  {
    var one := [ss[i]];
    assert ss[..i + 1] == ss[..i] + one;
    ConcatAppend(ss[..i], one);
    assert one[1..] == [];
    assert Concat(one) == ss[i] + Concat(one[1..]);
  }

  /** Piece `i` starts where the pieces before it end. */
  lemma ConcatAt<T>(ss: seq<seq<T>>, i: nat)
    requires i < |ss|
    ensures |Concat(ss[..i])| + |ss[i]| <= |Concat(ss)|
    ensures Concat(ss)[|Concat(ss[..i])|..|Concat(ss[..i])| + |ss[i]|] == ss[i]
  {
    var rest := ss[i..];
    assert ss == ss[..i] + rest;
    ConcatAppend(ss[..i], rest);
    assert rest[0] == ss[i];
    assert Concat(rest) == ss[i] + Concat(rest[1..]);
    assert Concat(ss) == Concat(ss[..i]) + ss[i] + Concat(rest[1..]);
    Middle(Concat(ss[..i]), ss[i], Concat(rest[1..]));
  }

  /** A slice of the first half, seen in a sequence known to be the whole. */
  lemma SliceOfWhole<T>(w: seq<T>, h: seq<T>, tl: seq<T>, a: nat, b: nat, x: seq<T>)
    requires w == h + tl
    requires a <= b <= |h| && h[a..b] == x
    ensures b <= |w| && w[a..b] == x
  {
    InPrefix(h, tl, a, b);
  }

  /** A slice of the second half, seen in the whole. */
  lemma SliceShift<T>(h: seq<T>, tl: seq<T>, a: nat, n: nat, x: seq<T>)
    requires a + n <= |tl| && tl[a..a + n] == x
    ensures |h| + a + n <= |h + tl|
    ensures (h + tl)[|h| + a..|h| + a + n] == x
  {
    InSuffix(h, tl, a, a + n);
  }
}
