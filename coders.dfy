/** The coder interface the layout engine relies on (`getParamCoder(type)`
    yields an object with `dynamic`, `encode(value)` and `decode(data, offset)`),
    the two laws the engine needs of every coder, and three primitive coders
    that obey them. */
module Coders {
  import opened Outcomes
  import opened Bytes
  import opened Sequences

  /** The values a contract call carries. */
  datatype Value =
    | Num(n: int)
    | Flag(b: bool)
    | Raw(bytes: seq<byte>)
    | Text(s: string)
    | List(items: seq<Value>)

  /** What `coder.decode` returns: the value and the bytes consumed at the
      offset it was given. */
  datatype Decoded = Decoded(value: Value, consumed: nat)

  /** A coder: whether its values are dynamic (stored in the tail behind an
      offset word), its encoder (None: the value is refused) and its decoder. */
  datatype Coder = Coder(
    dynamic: bool,
    encode: Value -> Option<seq<byte>>,
    decode: (seq<byte>, nat) -> Outcome<Decoded>)

  /** `getParamCoder`: a type string's coder, or None for an unsupported type. */
  type Registry = string -> Option<Coder>

  /** A dynamic coder always produces some bytes (at least its length word). */
  ghost predicate DynamicNonEmpty(c: Coder)
  {
    forall v :: c.dynamic && c.encode(v).Some? ==> |c.encode(v).value| > 0
  }

  /** Whatever buffer holds an encoding of `v` (zero-padded) at `off`, the
      decoder reads `v` back from `off`; a static coder reports the padded
      length of the encoding as consumed. */
  ghost predicate DecodesWhatItEncodes(c: Coder)
  {
    forall v, buf: seq<byte>, off: nat ::
      c.encode(v).Some? && SlotHolds(buf, off, c.encode(v).value) ==>
        && c.decode(buf, off).Ok?
        && c.decode(buf, off).value.value == v
        && (!c.dynamic ==> c.decode(buf, off).value.consumed == Align32(|c.encode(v).value|))
  }

  ghost predicate Lawful(c: Coder)
  {
    DynamicNonEmpty(c) && DecodesWhatItEncodes(c)
  }

  /** Every coder the registry hands out is lawful. */
  ghost predicate LawfulRegistry(reg: Registry)
  {
    forall t :: reg(t).Some? ==> Lawful(reg(t).value)
  }

  lemma AlignedLength(n: nat)
    requires n % 32 == 0
    ensures Align32(n) == n
  {
  }

  /** A buffer holding the padded word of `n` at `off` reads `n` back there. */
  lemma WordSlotReads(buf: seq<byte>, off: nat, n: nat)
    requires n < WordLimit()
    requires SlotHolds(buf, off, Word(n))
    ensures ReadWord(buf, off) == Ok(n)
  {
    var w := Word(n);
    AlignedLength(32);
    assert Padded(w) == w;
    WordRoundTrip(buf, off, n);
  }

  // ---- uint256 ----

  function Uint256Encode(v: Value): (r: Option<seq<byte>>)
    ensures r.Some? <==> v.Num? && 0 <= v.n < WordLimit()
    ensures r.Some? ==> |r.value| == 32
  {
    if v.Num? && 0 <= v.n < WordLimit() then Some(Word(v.n)) else None
  }

  function Uint256Decode(buf: seq<byte>, off: nat): (r: Outcome<Decoded>)
    ensures r.Ok? <==> off + 32 <= |buf|
    ensures r.Ok? ==> r.value.consumed == 32 && r.value.value.Num? && 0 <= r.value.value.n < WordLimit()
  {
    var w :- ReadWord(buf, off);
    Ok(Decoded(Num(w), 32))
  }

  const Uint256Coder: Coder := Coder(false, Uint256Encode, Uint256Decode)

  lemma Uint256Decodes(v: Value, buf: seq<byte>, off: nat)
    requires Uint256Encode(v).Some? && SlotHolds(buf, off, Uint256Encode(v).value)
    ensures Uint256Decode(buf, off) == Ok(Decoded(v, Align32(32)))
  {
    WordSlotReads(buf, off, v.n);
    AlignedLength(32);
  }

  lemma Uint256CoderLawful()
    ensures Lawful(Uint256Coder)
  {
    var c := Uint256Coder;
    forall v, buf: seq<byte>, off: nat | c.encode(v).Some? && SlotHolds(buf, off, c.encode(v).value)
      ensures c.decode(buf, off) == Ok(Decoded(v, Align32(|c.encode(v).value|)))
    {
      Uint256Decodes(v, buf, off);
    }
  }

  // ---- bool ----

  function BoolEncode(v: Value): (r: Option<seq<byte>>)
    ensures r.Some? <==> v.Flag?
    ensures r.Some? ==> |r.value| == 32
  {
    if v.Flag? then Some(Word(if v.b then 1 else 0)) else None
  }

  /** Any non-zero word decodes as true. */
  function BoolDecode(buf: seq<byte>, off: nat): (r: Outcome<Decoded>)
    ensures r.Ok? <==> off + 32 <= |buf|
    ensures r.Ok? ==> r.value.consumed == 32 && r.value.value.Flag?
    ensures r.Ok? ==> (r.value.value.b <==> ReadWord(buf, off).value != 0)
  {
    var w :- ReadWord(buf, off);
    Ok(Decoded(Flag(w != 0), 32))
  }

  const BoolCoder: Coder := Coder(false, BoolEncode, BoolDecode)

  lemma BoolDecodes(v: Value, buf: seq<byte>, off: nat)
    requires BoolEncode(v).Some? && SlotHolds(buf, off, BoolEncode(v).value)
    ensures BoolDecode(buf, off) == Ok(Decoded(v, Align32(32)))
  {
    WordSlotReads(buf, off, if v.b then 1 else 0);
    AlignedLength(32);
  }

  lemma BoolCoderLawful()
    ensures Lawful(BoolCoder)
  {
    var c := BoolCoder;
    forall v, buf: seq<byte>, off: nat | c.encode(v).Some? && SlotHolds(buf, off, c.encode(v).value)
      ensures c.decode(buf, off) == Ok(Decoded(v, Align32(|c.encode(v).value|)))
    {
      BoolDecodes(v, buf, off);
    }
  }

  // ---- bytes (dynamic) ----

  /** A 32-byte length word, then the raw bytes zero-padded to 32 bytes. */
  function DynamicBytesEncode(v: Value): (r: Option<seq<byte>>)
    ensures r.Some? <==> v.Raw? && |v.bytes| < WordLimit()
    ensures r.Some? ==> |r.value| == 32 + Align32(|v.bytes|)
    ensures r.Some? ==> r.value[..32] == Word(|v.bytes|) && r.value[32..32 + |v.bytes|] == v.bytes
  {
    if v.Raw? && |v.bytes| < WordLimit() then Some(Word(|v.bytes|) + Padded(v.bytes)) else None
  }

  /** Reads the length word at `off`, then that many bytes after it. */
  function DynamicBytesDecode(buf: seq<byte>, off: nat): (r: Outcome<Decoded>)
    ensures r.Ok? <==> off + 32 <= |buf| && off + 32 + ReadWord(buf, off).value <= |buf|
    ensures r.Ok? ==> r.value.value.Raw? && |r.value.value.bytes| == ReadWord(buf, off).value
    ensures r.Ok? ==> r.value.consumed == 32 + Align32(|r.value.value.bytes|)
  {
    var len :- ReadWord(buf, off);
    if off + 32 + len <= |buf| then Ok(Decoded(Raw(buf[off + 32..off + 32 + len]), 32 + Align32(len)))
    else Err(Truncated)
  }

  const DynamicBytesCoder: Coder := Coder(true, DynamicBytesEncode, DynamicBytesDecode)

  lemma DynamicBytesDecodes(v: Value, buf: seq<byte>, off: nat)
    requires DynamicBytesEncode(v).Some? && SlotHolds(buf, off, DynamicBytesEncode(v).value)
    ensures DynamicBytesDecode(buf, off).Ok? && DynamicBytesDecode(buf, off).value.value == v
  {
    var e := DynamicBytesEncode(v).value;
    var b := v.bytes;
    AlignSizeIsLeastMultiple(|b|, 0);
    SumAligned(32, Align32(|b|));
    PaddedWhole(e);
    SubSlice(buf, off, e, 0, 32);
    WordRoundTrip(buf, off, |b|);
    SubSlice(buf, off, e, 32, 32 + |b|);
  }

  lemma DynamicBytesCoderLawful()
    ensures Lawful(DynamicBytesCoder)
  {
    var c := DynamicBytesCoder;
    forall v, buf: seq<byte>, off: nat | c.encode(v).Some? && SlotHolds(buf, off, c.encode(v).value)
      ensures c.decode(buf, off).Ok? && c.decode(buf, off).value.value == v
    {
      DynamicBytesDecodes(v, buf, off);
    }
  }

  /** The coders of `uint256`, `bool` and `bytes`; other type strings are not
      resolved by this model. */
  function CoreRegistry(t: string): (r: Option<Coder>)
    ensures r.Some? <==> t in {"uint256", "bool", "bytes"}
    ensures r.Some? ==> (r.value.dynamic <==> t == "bytes")
  {
    if t == "uint256" then Some(Uint256Coder)
    else if t == "bool" then Some(BoolCoder)
    else if t == "bytes" then Some(DynamicBytesCoder)
    else None
  }

  lemma CoreRegistryLawful()
    ensures LawfulRegistry(CoreRegistry)
  {
    Uint256CoderLawful();
    BoolCoderLawful();
    DynamicBytesCoderLawful();
  }
}
