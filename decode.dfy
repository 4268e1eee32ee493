/** `decodeParams`: the encoder's walk run backwards. A head cursor visits
    the types in order; a dynamic type's head slot holds the absolute offset
    of its body, a static type is decoded where the cursor stands. Each
    value is stored by position when numbered entries are wanted, and under
    its name when it has one. */
module Decoder {
  import opened Outcomes
  import opened Bytes
  import opened Coders
  import opened Layout
  import opened Offsets
  import opened Encoder
  import opened Results

  /** One step of the walk: the value of type `t` for the head cursor at
      `off`, with how far the head cursor then moves. */
  function DecodeOne(reg: Registry, t: string, buf: seq<byte>, off: nat): (r: Outcome<Decoded>)
    ensures reg(t).None? ==> r == Err(UnsupportedType(t))
    ensures r.Ok? && reg(t).value.dynamic ==>
      && ReadWord(buf, off).Ok?
      && reg(t).value.decode(buf, ReadWord(buf, off).value).Ok?
      && r.value == Decoded(reg(t).value.decode(buf, ReadWord(buf, off).value).value.value, 32)
    ensures r.Ok? && !reg(t).value.dynamic ==> r == reg(t).value.decode(buf, off)
  {
    match reg(t)
    case None => Err(UnsupportedType(t))
    case Some(coder) =>
      if coder.dynamic then
        var at :- ReadWord(buf, off);
        var d :- coder.decode(buf, at);
        Ok(Decoded(d.value, 32))
      else
        coder.decode(buf, off)
  }

  /** The values a walk decoded, in order, and what stopped it early. */
  datatype Walk = Walk(decoded: seq<Value>, failure: Option<AbiError>)

  /** The walk over `types` with the head cursor starting at `off`. */
  function DecodeWalk(reg: Registry, types: seq<string>, buf: seq<byte>, off: nat): (w: Walk)
    ensures |w.decoded| <= |types|
    ensures w.failure.None? <==> |w.decoded| == |types|
  {
    if |types| == 0 then Walk([], None)
    else
      match DecodeOne(reg, types[0], buf, off)
      case Err(e) => Walk([], Some(e))
      case Ok(d) =>
        var rest := DecodeWalk(reg, types[1..], buf, off + d.consumed);
        Walk([d.value] + rest.decoded, rest.failure)
  }

  /** What `decodeParams` decodes from `data`: the walk from the start of
      the buffer. */
  function DecodeParamsSpec(reg: Registry, types: seq<string>, data: seq<byte>): (w: Walk)
    ensures |w.decoded| <= |types|
    ensures w.failure.None? <==> |w.decoded| == |types|
  {
    DecodeWalk(reg, types, data, 0)
  }

  /** The walk over the types from position `i` on, the head cursor at `off`. */
  function WalkFrom(reg: Registry, types: seq<string>, buf: seq<byte>, off: nat, i: nat): Walk
    requires i <= |types|
  {
    DecodeWalk(reg, types[i..], buf, off)
  }

  /** No types left: the walk decodes nothing and succeeds. */
  lemma WalkFromEnd(reg: Registry, types: seq<string>, buf: seq<byte>, off: nat)
    ensures WalkFrom(reg, types, buf, off, |types|) == Walk([], None)
  {
    assert |types[|types|..]| == 0;
  }

  /** A step that decodes moves both cursors on. */
  lemma WalkFromOk(reg: Registry, types: seq<string>, buf: seq<byte>, off: nat, i: nat, d: Decoded)
    requires i < |types| && DecodeOne(reg, types[i], buf, off) == Ok(d)
    ensures WalkFrom(reg, types, buf, off, i) == After([d.value], WalkFrom(reg, types, buf, off + d.consumed, i + 1))
  {
    assert types[i..][0] == types[i] && types[i..][1..] == types[i + 1..];
  }

  /** A step that fails stops the walk with its error. */
  lemma WalkFromErr(reg: Registry, types: seq<string>, buf: seq<byte>, off: nat, i: nat, e: AbiError)
    requires i < |types| && DecodeOne(reg, types[i], buf, off) == Err(e)
    ensures WalkFrom(reg, types, buf, off, i) == Walk([], Some(e))
  {
    assert types[i..][0] == types[i];
  }

  /** `xs` decoded, then the walk `w`. */
  function After(xs: seq<Value>, w: Walk): Walk
  {
    Walk(xs + w.decoded, w.failure)
  }

  /** Having decoded `xs` up to position `i`, a step that decodes `d` leaves
      `xs + [d.value]` decoded and the walk from position `i + 1` to go. */
  lemma WalkStepOk(reg: Registry, types: seq<string>, buf: seq<byte>, w: Walk, xs: seq<Value>, off: nat, i: nat, d: Decoded)
    requires i < |types| && w == After(xs, WalkFrom(reg, types, buf, off, i))
    requires DecodeOne(reg, types[i], buf, off) == Ok(d)
    ensures w == After(xs + [d.value], WalkFrom(reg, types, buf, off + d.consumed, i + 1))
  {
    WalkFromOk(reg, types, buf, off, i, d);
    var rest := WalkFrom(reg, types, buf, off + d.consumed, i + 1);
    assert xs + ([d.value] + rest.decoded) == xs + [d.value] + rest.decoded;
  }

  /** Having decoded `xs` up to position `i`, a step that fails ends the
      walk with `xs` decoded and its error. */
  lemma WalkStepErr(reg: Registry, types: seq<string>, buf: seq<byte>, w: Walk, xs: seq<Value>, off: nat, i: nat, e: AbiError)
    requires i < |types| && w == After(xs, WalkFrom(reg, types, buf, off, i))
    requires DecodeOne(reg, types[i], buf, off) == Err(e)
    ensures w == Walk(xs, Some(e))
  {
    WalkFromErr(reg, types, buf, off, i, e);
    assert xs + [] == xs;
  }

  /** Having decoded `xs` for all the types, the walk succeeded with `xs`. */
  lemma WalkStepEnd(reg: Registry, types: seq<string>, buf: seq<byte>, w: Walk, xs: seq<Value>, off: nat)
    requires w == After(xs, WalkFrom(reg, types, buf, off, |types|))
    ensures w == Walk(xs, None)
  {
    WalkFromEnd(reg, types, buf, off);
    assert xs + [] == xs;
  }

  /** The numbered entries after storing `vs` at positions 0, 1, .... */
  function Numbered(m: map<nat, Value>, vs: seq<Value>): (r: map<nat, Value>)
  {
    if |vs| == 0 then m else Numbered(m, vs[..|vs| - 1])[|vs| - 1 := vs[|vs| - 1]]
  }

  /** The name `names[k]` when it is given and non-empty (a truthy key). */
  function NameAt(names: seq<string>, k: nat): Option<string>
  {
    if k < |names| && names[k] != "" then Some(names[k]) else None
  }

  /** The named entries after storing `vs[k]` under `names[k]`, in order, so
      that a later value overwrites an earlier one under the same name. */
  function Named(m: map<string, Value>, names: seq<string>, vs: seq<Value>): (r: map<string, Value>)
  {
    if |vs| == 0 then m
    else
      var k := |vs| - 1;
      var before := Named(m, names, vs[..k]);
      if NameAt(names, k).Some? then before[names[k] := vs[k]] else before
  }

  /** The state of `values` after `decodeParams`: the entries of the values
      decoded before the walk stopped. */
  function Stored(before: Snapshot, names: seq<string>, numbered: bool, vs: seq<Value>): Snapshot
  {
    Snapshot(before.length, if numbered then Numbered(before.indexed, vs) else before.indexed, Named(before.named, names, vs))
  }

  /** Storing one more value sets its position (when numbered entries are
      wanted) and its name (when it has one), and nothing else. */
  lemma StoredNext(before: Snapshot, names: seq<string>, numbered: bool, vs: seq<Value>, v: Value)
    ensures var s, s' := Stored(before, names, numbered, vs), Stored(before, names, numbered, vs + [v]);
      && s'.length == s.length
      && s'.indexed == (if numbered then s.indexed[|vs| := v] else s.indexed)
      && s'.named == (if NameAt(names, |vs|).Some? then s.named[names[|vs|] := v] else s.named)
  {
    assert (vs + [v])[..|vs|] == vs;
  }

  /** Every decoded value is stored at its position. */
  lemma {:induction false} NumberedAt(m: map<nat, Value>, vs: seq<Value>, k: nat)
    requires k < |vs|
    ensures k in Numbered(m, vs) && Numbered(m, vs)[k] == vs[k]
  {
    var n := |vs| - 1;
    if k < n {
      NumberedAt(m, vs[..n], k);
    }
  }

  /** Positions past the decoded values keep what they held. */
  lemma {:induction false} NumberedBeyond(m: map<nat, Value>, vs: seq<Value>, k: nat)
    requires k >= |vs|
    ensures (k in Numbered(m, vs) <==> k in m) && (k in m ==> Numbered(m, vs)[k] == m[k])
  {
    if |vs| > 0 {
      NumberedBeyond(m, vs[..|vs| - 1], k);
    }
  }

  /** A value stored under a name that no later value carries is the entry
      under that name: the last value with a given name wins. */
  lemma {:induction false} NamedAt(m: map<string, Value>, names: seq<string>, vs: seq<Value>, k: nat)
    requires k < |vs| && NameAt(names, k).Some?
    requires forall j :: k < j < |vs| && NameAt(names, j).Some? ==> names[j] != names[k]
    ensures names[k] in Named(m, names, vs) && Named(m, names, vs)[names[k]] == vs[k]
  {
    var n := |vs| - 1;
    if k < n {
      assert forall j :: k < j < |vs[..n]| ==> vs[..n][j] == vs[j];
      NamedAt(m, names, vs[..n], k);
    }
  }

  /** With numbered entries on, a value with a name no later value carries
      is reachable both by position and by name. */
  lemma NumberedAndNamedAgree(before: Snapshot, names: seq<string>, vs: seq<Value>, k: nat)
    requires k < |vs| && NameAt(names, k).Some?
    requires forall j :: k < j < |vs| && NameAt(names, j).Some? ==> names[j] != names[k]
    ensures var s := Stored(before, names, true, vs);
      k in s.indexed && names[k] in s.named && s.indexed[k] == s.named[names[k]] == vs[k]
  {
    NumberedAt(before.indexed, vs, k);
    NamedAt(before.named, names, vs, k);
  }

  /** The body of `decodeParams`'s loop up to the stores: the coder of `t`
      reads a dynamic value at the offset in the head word at `offset`, a
      static one at `offset` itself. */
  method DecodeAt(reg: Registry, t: string, data: seq<byte>, offset: nat) returns (r: Outcome<Decoded>)
    ensures r == DecodeOne(reg, t, data, offset)
  {
    var coder := reg(t);
    if coder.None? {
      return Err(UnsupportedType(t));
    }
    if coder.value.dynamic {
      var dynamicOffset := ReadWord(data, offset);
      if dynamicOffset.Err? {
        return Err(dynamicOffset.error);
      }
      var decoded := coder.value.decode(data, dynamicOffset.value);
      if decoded.Err? {
        return Err(decoded.error);
      }
      r := Ok(Decoded(decoded.value.value, 32));
    } else {
      r := coder.value.decode(data, offset);
    }
  }

  /** The stores of one decoded value: by position when numbered entries
      are wanted, by name when the value has one. */
  method StoreDecoded(values: Result, names: seq<string>, useNumberedParams: bool, index: nat, value: Value,
                      ghost before: Snapshot, ghost decoded: seq<Value>)
    requires |decoded| == index && values.State() == Stored(before, names, useNumberedParams, decoded)
    modifies values
    ensures values.State() == Stored(before, names, useNumberedParams, decoded + [value])
  {
    StoredNext(before, names, useNumberedParams, decoded, value);
    if useNumberedParams {
      values.indexed := values.indexed[index := value];
    }
    if index < |names| && names[index] != "" {
      values.named := values.named[names[index] := value];
    }
  }

  /** `decodeParams(names, types, data, useNumberedParams, values)`: fills
      `values` and returns nothing, or what stopped the walk (thrown in the
      source, with `values` holding the entries stored until then). */
  method DecodeParams(reg: Registry, names: seq<string>, types: seq<string>, data: seq<byte>,
                      useNumberedParams: bool, values: Result)
      returns (err: Option<AbiError>)
    modifies values
    ensures var w := DecodeParamsSpec(reg, types, data);
      && err == w.failure
      && values.State() == Stored(old(values.State()), names, useNumberedParams, w.decoded)
  {
    ghost var before := values.State();
    ghost var walk := DecodeParamsSpec(reg, types, data);
    ghost var decoded: seq<Value> := [];
    err := None;
    var offset: nat := 0;
    var index := 0;
    assert types[0..] == types;
    while index < |types|
      invariant 0 <= index <= |types| && |decoded| == index
      invariant walk == After(decoded, WalkFrom(reg, types, data, offset, index))
      invariant values.State() == Stored(before, names, useNumberedParams, decoded)
    {
      var step := DecodeAt(reg, types[index], data, offset);
      if step.Err? {
        WalkStepErr(reg, types, data, walk, decoded, offset, index, step.error);
        return Some(step.error);
      }
      var result := step.value;
      WalkStepOk(reg, types, data, walk, decoded, offset, index, result);
      StoreDecoded(values, names, useNumberedParams, index, result.value, before, decoded);
      decoded := decoded + [result.value];
      offset := offset + result.consumed;
      index := index + 1;
    }
    WalkStepEnd(reg, types, data, walk, decoded, offset);
  }

  // ---- decoding what was encoded ----

  /** A static value's padded encoding is decoded where the head cursor
      stands, and the cursor moves past its padded length. */
  lemma DecodesStatic(reg: Registry, t: string, v: Value, buf: seq<byte>, off: nat)
    requires LawfulRegistry(reg) && Encodes(reg, t, v) && !reg(t).value.dynamic
    requires SlotHolds(buf, off, reg(t).value.encode(v).value)
    ensures DecodeOne(reg, t, buf, off) == Ok(Decoded(v, Align32(|reg(t).value.encode(v).value|)))
  {
    var c := reg(t).value;
    assert Lawful(c);
  }

  /** A dynamic value is decoded at the offset its head slot holds, and the
      head cursor moves past the 32-byte slot. */
  lemma DecodesDynamic(reg: Registry, t: string, v: Value, buf: seq<byte>, off: nat, at: nat)
    requires LawfulRegistry(reg) && Encodes(reg, t, v) && reg(t).value.dynamic
    requires at < WordLimit() && off + 32 <= |buf| && buf[off..off + 32] == Word(at)
    requires SlotHolds(buf, at, reg(t).value.encode(v).value)
    ensures DecodeOne(reg, t, buf, off) == Ok(Decoded(v, 32))
  {
    var c := reg(t).value;
    assert Lawful(c);
    WordRoundTrip(buf, off, at);
  }

  /** Part `i` of an encoding decodes as the value it was encoded from, and
      the head cursor moves past its slot. */
  lemma DecodesPart(reg: Registry, t: string, v: Value, ps: seq<Part>, i: nat)
    requires LawfulRegistry(reg) && Encodes(reg, t, v)
    requires i < |ps| && ps[i] == PartOf(reg, t, v)
    requires |Encoded(ps)| < WordLimit()
    ensures DecodeOne(reg, t, Encoded(ps), HeadOffset(ps, i)) == Ok(Decoded(v, SlotSize(ps[i])))
  {
    if ps[i].dynamic {
      DynamicPartAt(ps, i);
      DecodesDynamic(reg, t, v, Encoded(ps), HeadOffset(ps, i), TailOffset(ps, i));
    } else {
      StaticPartAt(ps, i);
      DecodesStatic(reg, t, v, Encoded(ps), HeadOffset(ps, i));
    }
  }

  /** `ps` are the parts of `values` under `types`, position by position. */
  ghost predicate PartsOf(reg: Registry, types: seq<string>, values: seq<Value>, ps: seq<Part>)
  {
    && |types| == |values| == |ps|
    && forall i :: 0 <= i < |ps| ==> Encodes(reg, types[i], values[i]) && ps[i] == PartOf(reg, types[i], values[i])
  }

  /** Decoding type `t` with the head cursor at `from` yields `v` and moves
      the cursor to `to`. */
  predicate StepDecodes(reg: Registry, t: string, buf: seq<byte>, from: nat, to: nat, v: Value)
  {
    from <= to && DecodeOne(reg, t, buf, from) == Ok(Decoded(v, to - from))
  }

  /** A walk whose every step from position `i` on decodes `values[k]` and
      moves the head cursor from `offs[k]` to `offs[k + 1]` decodes the
      remaining values. */
  lemma {:induction false} WalkDecodes(reg: Registry, types: seq<string>, values: seq<Value>, buf: seq<byte>, offs: seq<nat>, i: nat)
    requires |types| == |values| && |offs| == |types| + 1 && i <= |types|
    requires forall k :: i <= k < |types| ==> StepDecodes(reg, types[k], buf, offs[k], offs[k + 1], values[k])
    ensures WalkFrom(reg, types, buf, offs[i], i) == Walk(values[i..], None)
    decreases |types| - i
  {
    if i == |types| {
      WalkFromEnd(reg, types, buf, offs[i]);
      assert |values[i..]| == 0;
    } else {
      assert StepDecodes(reg, types[i], buf, offs[i], offs[i + 1], values[i]);
      WalkFromOk(reg, types, buf, offs[i], i, Decoded(values[i], offs[i + 1] - offs[i]));
      WalkDecodes(reg, types, values, buf, offs, i + 1);
      assert [values[i]] + values[i + 1..] == values[i..];
    }
  }

  /** Every part of an encoding decodes as the value it came from, moving
      the head cursor from one head offset to the next. */
  lemma PartsDecode(reg: Registry, types: seq<string>, values: seq<Value>, ps: seq<Part>, offs: seq<nat>)
    requires LawfulRegistry(reg) && PartsOf(reg, types, values, ps)
    requires |Encoded(ps)| < WordLimit()
    requires |offs| == |ps| + 1 && forall k :: 0 <= k <= |ps| ==> offs[k] == HeadSize(ps[..k])
    ensures forall k :: 0 <= k < |types| ==> StepDecodes(reg, types[k], Encoded(ps), offs[k], offs[k + 1], values[k])
  {
    forall k | 0 <= k < |types|
      ensures StepDecodes(reg, types[k], Encoded(ps), offs[k], offs[k + 1], values[k])
    {
      DecodesPart(reg, types[k], values[k], ps, k);
      CursorsAdvance(ps, k);
    }
  }

  /** `decodeParams(types, encodeParams(types, values))` gives back
      `values`, in order, when every coder decodes what it encodes and the
      buffer is shorter than 2^256 bytes (so every offset fits its word). */
  lemma DecodeEncodeRoundTrip(reg: Registry, types: seq<string>, values: seq<Value>)
    requires LawfulRegistry(reg)
    requires EncodeParamsSpec(reg, types, values).Ok?
    requires |EncodeParamsSpec(reg, types, values).value| < WordLimit()
    ensures DecodeWalk(reg, types, EncodeParamsSpec(reg, types, values).value, 0) == Walk(values, None)
  {
    var ps := Parts(reg, types, values).value;
    assert PartsOf(reg, types, values, ps);
    var offs := seq(|ps| + 1, k requires 0 <= k <= |ps| => HeadSize(ps[..k]));
    PartsDecode(reg, types, values, ps, offs);
    WalkDecodes(reg, types, values, Encoded(ps), offs, 0);
    assert types[0..] == types && values[0..] == values && |ps[..0]| == 0;
  }
}
