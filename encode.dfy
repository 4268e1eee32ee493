/** `encodeParams`: each value is encoded by the coder of its type, the head
    and tail sizes are summed, and a zero-filled buffer of that size is
    filled by a walk with two cursors, one in the head and one in the tail. */
module Encoder {
  import opened Outcomes
  import opened Bytes
  import opened Sequences
  import opened Coders
  import opened Layout
  import opened Offsets

  /** The registry knows type `t` and its coder accepts `v`. */
  predicate Encodes(reg: Registry, t: string, v: Value)
  {
    reg(t).Some? && reg(t).value.encode(v).Some?
  }

  /** The entry `parts.push` records for a value of type `t`. */
  function PartOf(reg: Registry, t: string, v: Value): Part
    requires Encodes(reg, t, v)
  {
    Part(reg(t).value.dynamic, reg(t).value.encode(v).value)
  }

  /** What is thrown when a value of type `t` cannot be encoded. */
  function Refusal(reg: Registry, t: string, v: Value): AbiError
    requires !Encodes(reg, t, v)
  {
    if reg(t).None? then UnsupportedType(t) else InvalidValue(t)
  }

  /** `e` is what the first value that cannot be encoded throws. */
  ghost predicate FirstRefused(reg: Registry, types: seq<string>, values: seq<Value>, e: AbiError)
    requires |types| == |values|
  {
    exists i :: 0 <= i < |types| && !Encodes(reg, types[i], values[i]) && e == Refusal(reg, types[i], values[i])
      && (forall j :: 0 <= j < i ==> Encodes(reg, types[j], values[j]))
  }

  lemma RefusedLater(reg: Registry, types: seq<string>, values: seq<Value>, e: AbiError)
    requires |types| == |values| > 0 && Encodes(reg, types[0], values[0])
    requires FirstRefused(reg, types[1..], values[1..], e)
    ensures FirstRefused(reg, types, values, e)
  {
    var k :| 0 <= k < |types| - 1 && !Encodes(reg, types[1..][k], values[1..][k]) && e == Refusal(reg, types[1..][k], values[1..][k])
      && (forall j :: 0 <= j < k ==> Encodes(reg, types[1..][j], values[1..][j]));
    assert forall j :: 1 <= j < k + 1 ==> types[j] == types[1..][j - 1] && values[j] == values[1..][j - 1];
    assert !Encodes(reg, types[k + 1], values[k + 1]) && e == Refusal(reg, types[k + 1], values[k + 1]);
  }

  /** The parts of `types` and `values`, taken in order: the first type the
      registry does not know, or the first value its coder refuses, stops
      the encoding. */
  function Parts(reg: Registry, types: seq<string>, values: seq<Value>): (r: Outcome<seq<Part>>)
    requires |types| == |values|
    ensures r.Ok? <==> forall i :: 0 <= i < |types| ==> Encodes(reg, types[i], values[i])
    ensures r.Ok? ==> |r.value| == |types|
    ensures r.Ok? ==> forall i :: 0 <= i < |types| ==> r.value[i] == PartOf(reg, types[i], values[i])
    ensures r.Err? ==> FirstRefused(reg, types, values, r.error)
  {
    if |types| == 0 then Ok([])
    else if !Encodes(reg, types[0], values[0]) then Err(Refusal(reg, types[0], values[0]))
    else
      var rest := Parts(reg, types[1..], values[1..]);
      assert forall i :: 1 <= i < |types| ==> types[1..][i - 1] == types[i] && values[1..][i - 1] == values[i];
      if rest.Err? then
        RefusedLater(reg, types, values, rest.error);
        rest
      else
        Prepend([PartOf(reg, types[0], values[0])], rest)
  }

  /** With lawful coders every dynamic body holds at least one byte, so
      the offset words of an encoding's dynamic parts strictly increase. */
  lemma EncodedOffsetsStrict(reg: Registry, types: seq<string>, values: seq<Value>, i: nat, j: nat)
    requires LawfulRegistry(reg) && |types| == |values| && Parts(reg, types, values).Ok?
    requires i < j < |types|
    requires Parts(reg, types, values).value[i].dynamic && Parts(reg, types, values).value[j].dynamic
    ensures TailOffset(Parts(reg, types, values).value, i) < TailOffset(Parts(reg, types, values).value, j)
  {
    var ps := Parts(reg, types, values).value;
    assert Lawful(reg(types[i]).value);
    OffsetsOrdered(ps, i, j);
  }

  // ---- the write walk ----

  /** The head slots of the first `k` parts, as the walk writes them. */
  function WrittenHead(ps: seq<Part>, k: nat): (h: seq<byte>)
    requires k <= |ps|
    ensures |h| == HeadSize(ps[..k])
  {
    SlotsOffset(ps, HeadSize(ps), k);
    Concat(Slots(ps, HeadSize(ps))[..k])
  }

  /** The tail bodies of the first `k` parts, as the walk writes them. */
  function WrittenTail(ps: seq<Part>, k: nat): (t: seq<byte>)
    requires k <= |ps|
    ensures |t| == TailSize(ps[..k])
  {
    BodiesOffset(ps, k);
    Concat(Bodies(ps)[..k])
  }

  /** The buffer after the walk has written the first `k` parts: their slots
      at the front of the head and their bodies at the front of the tail,
      zeros everywhere else. */
  function Written(ps: seq<Part>, k: nat): (w: seq<byte>)
    requires k <= |ps|
    ensures |w| == HeadSize(ps) + TailSize(ps)
  {
    PrefixSizes(ps, k);
    Fill(WrittenHead(ps, k), HeadSize(ps) - HeadSize(ps[..k]), WrittenTail(ps, k), TailSize(ps) - TailSize(ps[..k]))
  }

  /** Before the walk the buffer is all zeros. */
  lemma WrittenNothing(ps: seq<Part>)
    ensures Written(ps, 0) == Zeros(HeadSize(ps) + TailSize(ps))
  {
    assert ps[..0] == [];
    assert Slots(ps, HeadSize(ps))[..0] == [] && Bodies(ps)[..0] == [];
    ZerosAdd(HeadSize(ps), TailSize(ps));
  }

  /** After the walk the buffer is the layout. */
  lemma WrittenAll(ps: seq<Part>)
    ensures Written(ps, |ps|) == Encoded(ps)
  {
    assert ps[..|ps|] == ps;
    assert Slots(ps, HeadSize(ps))[..|ps|] == Slots(ps, HeadSize(ps));
    assert Bodies(ps)[..|ps|] == Bodies(ps);
    assert Zeros(0) == [];
  }

  /** Writing part `k` appends its slot to the written head... */
  lemma WrittenHeadNext(ps: seq<Part>, k: nat)
    requires k < |ps|
    ensures WrittenHead(ps, k + 1) == WrittenHead(ps, k) + Slot(ps[k], TailOffset(ps, k))
  {
    var ss := Slots(ps, HeadSize(ps));
    ConcatSnoc(ss, k);
    SlotsIndex(ps, HeadSize(ps), k);
    assert ss[k] == Slot(ps[k], TailOffset(ps, k));
  }

  /** ...and its body to the written tail. */
  lemma WrittenTailNext(ps: seq<Part>, k: nat)
    requires k < |ps|
    ensures WrittenTail(ps, k + 1) == WrittenTail(ps, k) + Body(ps[k])
  {
    ConcatSnoc(Bodies(ps), k);
  }

  /** Each takes its room from the zeros after it. */
  lemma WrittenNext(ps: seq<Part>, k: nat)
    requires k < |ps|
    ensures HeadSize(ps[..k + 1]) == HeadSize(ps[..k]) + SlotSize(ps[k]) <= HeadSize(ps)
    ensures TailSize(ps[..k + 1]) == TailSize(ps[..k]) + BodySize(ps[k]) <= TailSize(ps)
    ensures WrittenHead(ps, k + 1) == WrittenHead(ps, k) + Slot(ps[k], TailOffset(ps, k))
    ensures WrittenTail(ps, k + 1) == WrittenTail(ps, k) + Body(ps[k])
  {
    CursorsAdvance(ps, k);
    PrefixSizes(ps, k + 1);
    WrittenHeadNext(ps, k);
    WrittenTailNext(ps, k);
  }

  /** Copying a static part to the head cursor writes its slot and changes
      nothing else. */
  lemma WriteStatic(ps: seq<Part>, k: nat)
    requires k < |ps| && !ps[k].dynamic
    ensures HeadSize(ps[..k]) + |ps[k].value| <= |Written(ps, k)|
    ensures Splice(Written(ps, k), HeadSize(ps[..k]), ps[k].value) == Written(ps, k + 1)
  {
    var a, b := WrittenHead(ps, k), WrittenTail(ps, k);
    var zh, zt := HeadSize(ps) - HeadSize(ps[..k]), TailSize(ps) - TailSize(ps[..k]);
    var v := ps[k].value;
    WrittenNext(ps, k);
    FillHead(a, zh, b, zt, v);
    assert b + Body(ps[k]) == b;
    assert Written(ps, k + 1) == Fill(a + Padded(v), zh - Align32(|v|), b, zt);
  }

  /** The buffer halfway through writing dynamic part `k`: its offset word
      is in the head, its body not yet in the tail. */
  function HalfWritten(ps: seq<Part>, k: nat): (w: seq<byte>)
    requires k < |ps| && ps[k].dynamic
    ensures |w| == HeadSize(ps) + TailSize(ps)
  {
    WrittenNext(ps, k);
    Fill(WrittenHead(ps, k) + Word(TailOffset(ps, k)), HeadSize(ps) - HeadSize(ps[..k]) - 32,
         WrittenTail(ps, k), TailSize(ps) - TailSize(ps[..k]))
  }

  lemma PaddedWord(n: nat)
    ensures Padded(Word(n)) == Word(n)
  {
    AlignedLength(32);
  }

  /** Copying a dynamic part's offset word to the head cursor writes its
      slot and changes nothing else. */
  lemma WriteOffsetWord(ps: seq<Part>, k: nat)
    requires k < |ps| && ps[k].dynamic
    ensures HeadSize(ps[..k]) + 32 <= HeadSize(ps)
    ensures Splice(Written(ps, k), HeadSize(ps[..k]), Word(TailOffset(ps, k))) == HalfWritten(ps, k)
  {
    var a, b := WrittenHead(ps, k), WrittenTail(ps, k);
    var zh, zt := HeadSize(ps) - HeadSize(ps[..k]), TailSize(ps) - TailSize(ps[..k]);
    var w := Word(TailOffset(ps, k));
    WrittenNext(ps, k);
    AlignedLength(32);
    FillHead(a, zh, b, zt, w);
    PaddedWord(TailOffset(ps, k));
  }

  /** Copying a dynamic part's body to the tail cursor writes its body and
      changes nothing else. */
  lemma WriteBody(ps: seq<Part>, k: nat)
    requires k < |ps| && ps[k].dynamic
    ensures TailOffset(ps, k) + |ps[k].value| <= HeadSize(ps) + TailSize(ps)
    ensures Splice(HalfWritten(ps, k), TailOffset(ps, k), ps[k].value) == Written(ps, k + 1)
  {
    var a, b := WrittenHead(ps, k) + Word(TailOffset(ps, k)), WrittenTail(ps, k);
    var zh, zt := HeadSize(ps) - HeadSize(ps[..k]) - 32, TailSize(ps) - TailSize(ps[..k]);
    var v := ps[k].value;
    WrittenNext(ps, k);
    FillTail(a, zh, b, zt, v);
    assert Written(ps, k + 1) == Fill(a, zh, b + Padded(v), zt - Align32(|v|));
  }

  // ---- encodeParams ----

  /** `encodeParams(types, values)`: an arity mismatch is thrown before
      anything is encoded; otherwise the parts are laid out head first. */
  function EncodeParamsSpec(reg: Registry, types: seq<string>, values: seq<Value>): (r: Outcome<seq<byte>>)
    ensures (r.Err? && r.error.ArityMismatch?) <==> |types| != |values|
    ensures r.Ok? <==> |types| == |values| && forall i :: 0 <= i < |types| ==> Encodes(reg, types[i], values[i])
    ensures r.Ok? ==> |r.value| % 32 == 0
  {
    if |types| != |values| then Err(ArityMismatch(|types|, |values|))
    else
      var ps :- Parts(reg, types, values);
      EncodedAligned(ps);
      Ok(Encoded(ps))
  }

  /** The parts of the values from index `i` on: the first one's part, then
      the rest, or the first one's refusal. */
  lemma PartsFrom(reg: Registry, types: seq<string>, values: seq<Value>, i: nat)
    requires |types| == |values| && i < |types|
    ensures Parts(reg, types[i..], values[i..])
         == if !Encodes(reg, types[i], values[i]) then Err(Refusal(reg, types[i], values[i]))
            else Prepend([PartOf(reg, types[i], values[i])], Parts(reg, types[i + 1..], values[i + 1..]))
  {
    assert types[i..][0] == types[i] && values[i..][0] == values[i];
    assert types[i..][1..] == types[i + 1..] && values[i..][1..] == values[i + 1..];
  }

  /** `Buffer.copy`: `src` is copied into `dst` from index `at` on. */
  method CopyInto(dst: array<byte>, at: nat, src: seq<byte>)
    requires at + |src| <= dst.Length
    modifies dst
    ensures dst[..] == Splice(old(dst[..]), at, src)
  {
    var j := 0;
    while j < |src|
      invariant 0 <= j <= |src|
      invariant forall i :: 0 <= i < dst.Length ==> dst[i] == if at <= i < at + j then src[i - at] else old(dst[i])
    {
      dst[at + j] := src[j];
      j := j + 1;
    }
    assert forall i :: 0 <= i < dst.Length ==> dst[..][i] == Splice(old(dst[..]), at, src)[i];
  }

  /** The first loop: `parts.push` of each value's encoding, in order. */
  method EncodeParts(reg: Registry, types: seq<string>, values: seq<Value>) returns (r: Outcome<seq<Part>>)
    requires |types| == |values|
    ensures r == Parts(reg, types, values)
  {
    var parts: seq<Part> := [];
    var i := 0;
    while i < |types|
      invariant 0 <= i <= |types|
      invariant Parts(reg, types, values) == Prepend(parts, Parts(reg, types[i..], values[i..]))
    {
      PartsFrom(reg, types, values, i);
      var coder := reg(types[i]);
      if coder.None? {
        return Err(UnsupportedType(types[i]));
      }
      var encoded := coder.value.encode(values[i]);
      if encoded.None? {
        return Err(InvalidValue(types[i]));
      }
      PrependPrepend(parts, [PartOf(reg, types[i], values[i])], Parts(reg, types[i + 1..], values[i + 1..]));
      parts := parts + [Part(coder.value.dynamic, encoded.value)];
      i := i + 1;
    }
    assert types[i..] == [] && values[i..] == [];
    assert parts + [] == parts;
    return Ok(parts);
  }

  /** The second loop: `staticSize` and `dynamicSize`. */
  method Sizes(parts: seq<Part>) returns (staticSize: nat, dynamicSize: nat)
    ensures staticSize == HeadSize(parts) && dynamicSize == TailSize(parts)
  {
    staticSize, dynamicSize := 0, 0;
    var k := 0;
    while k < |parts|
      invariant 0 <= k <= |parts|
      invariant staticSize == HeadSize(parts[..k]) && dynamicSize == TailSize(parts[..k])
    {
      CursorsAdvance(parts, k);
      var part := parts[k];
      if part.dynamic {
        staticSize := staticSize + 32;
        dynamicSize := dynamicSize + Align32(|part.value|);
      } else {
        staticSize := staticSize + Align32(|part.value|);
      }
      k := k + 1;
    }
    assert parts[..k] == parts;
  }

  /** The third loop: the head cursor `offset` and the tail cursor
      `dynamicOffset` walk the parts, copying into the zero-filled `data`.
      At the end the head cursor has reached `staticSize`, the tail cursor
      the end of the buffer, and the buffer is the layout. */
  method WriteParts(parts: seq<Part>, staticSize: nat, data: array<byte>) returns (offset: nat, dynamicOffset: nat)
    requires staticSize == HeadSize(parts)
    requires data[..] == Zeros(HeadSize(parts) + TailSize(parts))
    modifies data
    ensures data[..] == Encoded(parts)
    ensures offset == staticSize && dynamicOffset == data.Length
  {
    offset, dynamicOffset := 0, staticSize;
    WrittenNothing(parts);
    assert parts[..0] == [];
    var k := 0;
    while k < |parts|
      invariant 0 <= k <= |parts|
      invariant offset == HeadSize(parts[..k]) && dynamicOffset == TailOffset(parts, k)
      invariant data[..] == Written(parts, k)
    {
      var part := parts[k];
      WrittenNext(parts, k);
      if part.dynamic {
        WriteOffsetWord(parts, k);
        CopyInto(data, offset, Word(dynamicOffset));
        offset := offset + 32;
        WriteBody(parts, k);
        CopyInto(data, dynamicOffset, part.value);
        dynamicOffset := dynamicOffset + Align32(|part.value|);
      } else {
        WriteStatic(parts, k);
        CopyInto(data, offset, part.value);
        offset := offset + Align32(|part.value|);
      }
      k := k + 1;
    }
    assert parts[..k] == parts;
    WrittenAll(parts);
  }

  /** `encodeParams`, up to the hex conversion of the buffer. */
  method EncodeParams(reg: Registry, types: seq<string>, values: seq<Value>) returns (r: Outcome<seq<byte>>)
    ensures r == EncodeParamsSpec(reg, types, values)
  {
    if |types| != |values| {
      return Err(ArityMismatch(|types|, |values|));
    }
    var encoded := EncodeParts(reg, types, values);
    if encoded.Err? {
      return Err(encoded.error);
    }
    var parts := encoded.value;
    var staticSize, dynamicSize := Sizes(parts);
    var data := new byte[staticSize + dynamicSize](_ => 0);
    assert data[..] == Zeros(staticSize + dynamicSize);
    var offset, dynamicOffset := WriteParts(parts, staticSize, data);
    return Ok(data[..]);
  }
}
