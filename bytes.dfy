/** Byte buffers, 32-byte alignment and the 32-byte big-endian word that the
    contract ABI uses for integers and for the offsets of dynamic parts. */
module Bytes {
  import opened Outcomes

  type byte = b: int | 0 <= b < 256

  /** `n` zero bytes: the content of a freshly allocated buffer. */
  function Zeros(n: nat): (z: seq<byte>)
    ensures |z| == n
    ensures forall i :: 0 <= i < n ==> z[i] == 0
  {
    seq(n, _ => 0)
  }

  lemma ZerosAdd(a: nat, b: nat)
    ensures Zeros(a) + Zeros(b) == Zeros(a + b)
  {
  }

  /** `alignSize`: the size rounded up to the next multiple of 32. The source
      computes `32 * Math.ceil(size / 32)` in floating point; for the
      non-negative integer lengths involved this is integer ceiling division. */
  function Align32(n: nat): (r: nat)
    ensures n <= r < n + 32
  {
    32 * ((n + 31) / 32)
  }

  /** `alignSize(n)` is a multiple of 32, and the least one that holds `n`
      bytes. */
  lemma AlignSizeIsLeastMultiple(n: nat, m: nat)
    ensures Align32(n) % 32 == 0
    ensures m % 32 == 0 && n <= m ==> Align32(n) <= m
  {
    var q := (n + 31) / 32;
    assert Align32(n) == 32 * q;
  }

  lemma SumAligned(a: nat, b: nat)
    requires a % 32 == 0 && b % 32 == 0
    ensures (a + b) % 32 == 0
  {
    assert a + b == 32 * (a / 32 + b / 32);
  }

  /** An encoded part as it lies in the buffer: its bytes, then the zero
      padding up to the 32-byte boundary that the buffer never overwrites. */
  function Padded(e: seq<byte>): (p: seq<byte>)
    ensures |p| == Align32(|e|)
    ensures p[..|e|] == e
    ensures forall i :: |e| <= i < |p| ==> p[i] == 0
  {
    e + Zeros(Align32(|e|) - |e|)
  }

  /** An encoding that already fills whole words needs no padding. */
  lemma PaddedWhole(e: seq<byte>)
    requires |e| % 32 == 0
    ensures Padded(e) == e
  {
    var q := (|e| + 31) / 32;
    assert q == |e| / 32;
  }

  /** `buf` holds the encoding `e`, zero-padded to 32 bytes, at byte `off`. */
  ghost predicate SlotHolds(buf: seq<byte>, off: nat, e: seq<byte>)
  {
    off + Align32(|e|) <= |buf| && buf[off..off + Align32(|e|)] == Padded(e)
  }

  function Pow256(k: nat): (p: nat)
    ensures p >= 1
  {
    if k == 0 then 1 else 256 * Pow256(k - 1)
  }

  /** The number of values a 32-byte word can hold: 2^256. */
  function WordLimit(): nat
  {
    Pow256(32)
  }

  /** The last `k` base-256 digits of `n`, most significant first (the
      digits above them are dropped). */
  function BigEndian(n: nat, k: nat): (s: seq<byte>)
    ensures |s| == k
  {
    if k == 0 then [] else BigEndian(n / 256, k - 1) + [n % 256]
  }

  /** The number a big-endian byte string denotes. */
  function FromBigEndian(s: seq<byte>): (n: nat)
    ensures n < Pow256(|s|)
  {
    if |s| == 0 then 0
    else
      var hi := FromBigEndian(s[..|s| - 1]);
      assert hi <= Pow256(|s| - 1) - 1;
      hi * 256 + s[|s| - 1]
  }

  lemma {:induction false} BigEndianRoundTrip(n: nat, k: nat)
    requires n < Pow256(k)
    ensures FromBigEndian(BigEndian(n, k)) == n
  {
    if k > 0 {
      var s := BigEndian(n, k);
      assert s[..k - 1] == BigEndian(n / 256, k - 1);
      assert n / 256 < Pow256(k - 1);
      BigEndianRoundTrip(n / 256, k - 1);
    }
  }

  /** `uint256Coder.encode` of a non-negative integer: one 32-byte big-endian
      word. A number of 2^256 or more keeps only its low 256 bits. */
  function Word(n: nat): (w: seq<byte>)
    ensures |w| == 32
  {
    BigEndian(n, 32)
  }

  /** `uint256Coder.decode(data, offset)`: the word at `off`, or an error when
      fewer than 32 bytes remain. It always consumes 32 bytes. */
  function ReadWord(buf: seq<byte>, off: nat): (r: Outcome<nat>)
    ensures r.Ok? <==> off + 32 <= |buf|
    ensures r.Ok? ==> r.value < WordLimit()
  {
    if off + 32 <= |buf| then Ok(FromBigEndian(buf[off..off + 32])) else Err(Truncated)
  }

  /** A word written at `off` reads back as the number it was written from. */
  lemma WordRoundTrip(buf: seq<byte>, off: nat, n: nat)
    requires n < WordLimit()
    requires off + 32 <= |buf| && buf[off..off + 32] == Word(n)
    ensures ReadWord(buf, off) == Ok(n)
  {
    BigEndianRoundTrip(n, 32);
  }

  /** Writing `src` into `s` at `at`, as `Buffer.copy` does. */
  function Splice(s: seq<byte>, at: nat, src: seq<byte>): (r: seq<byte>)
    requires at + |src| <= |s|
    ensures |r| == |s|
  {
    s[..at] + src + s[at + |src|..]
  }

  /** Copying `src` to the start of a zero region of `n` bytes leaves its
      padded form there, and the rest of the region zero. */
  lemma SplicePadded(x: seq<byte>, n: nat, y: seq<byte>, src: seq<byte>)
    requires Align32(|src|) <= n
    ensures Splice(x + Zeros(n) + y, |x|, src) == x + Padded(src) + Zeros(n - Align32(|src|)) + y
  {
    SpliceIntoZeros(x, n, y, src);
    ZerosAdd(Align32(|src|) - |src|, n - Align32(|src|));
    assert Padded(src) + Zeros(n - Align32(|src|)) == src + Zeros(n - |src|);
  }

  /** A buffer whose head is `a` then `zh` zeros and whose tail is `b` then
      `zt` zeros: the shape of the buffer while the encoder fills it. */
  function Fill(a: seq<byte>, zh: nat, b: seq<byte>, zt: nat): (f: seq<byte>)
    ensures |f| == |a| + zh + |b| + zt
  {
    a + Zeros(zh) + b + Zeros(zt)
  }

  /** Copying a static part to the head cursor moves it past the part's
      padded bytes. */
  lemma FillHead(a: seq<byte>, zh: nat, b: seq<byte>, zt: nat, v: seq<byte>)
    requires Align32(|v|) <= zh
    ensures Splice(Fill(a, zh, b, zt), |a|, v) == Fill(a + Padded(v), zh - Align32(|v|), b, zt)
  {
    var y := b + Zeros(zt);
    assert Fill(a, zh, b, zt) == a + Zeros(zh) + y;
    SplicePadded(a, zh, y, v);
  }

  /** Copying a dynamic part's body to the tail cursor moves it past the
      body's padded bytes. */
  lemma FillTail(a: seq<byte>, zh: nat, b: seq<byte>, zt: nat, v: seq<byte>)
    requires Align32(|v|) <= zt
    ensures Splice(Fill(a, zh, b, zt), |a| + zh + |b|, v) == Fill(a, zh, b + Padded(v), zt - Align32(|v|))
  {
    var x := a + Zeros(zh) + b;
    assert Fill(a, zh, b, zt) == x + Zeros(zt) + [];
    SplicePadded(x, zt, [], v);
  }

  /** Copying into a zero region of a buffer leaves the rest of the region zero. */
  lemma SpliceIntoZeros(x: seq<byte>, n: nat, y: seq<byte>, src: seq<byte>)
    requires |src| <= n
    ensures Splice(x + Zeros(n) + y, |x|, src) == x + src + Zeros(n - |src|) + y
  {
    var s := x + Zeros(n) + y;
    assert s[..|x|] == x;
    assert s[|x| + |src|..] == Zeros(n - |src|) + y;
  }
}
