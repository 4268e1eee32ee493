/** Method calls: `encodeMethod` prefixes the encoded inputs with the 4-byte
    selector, `encodeEvent` does the same for an event's inputs, and
    `decodeMethod` decodes a call's return data by the method's outputs. */
module Facade {
  import opened Outcomes
  import opened Bytes
  import opened Coders
  import opened Encoder
  import opened Results
  import opened Decoder
  import opened Interface

  /** `encodeMethod(method, values)`: the selector, then the inputs encoded
      by `encodeParams` (which raises the errors). */
  function EncodeMethod(reg: Registry, hash: Hash, item: AbiItem, values: seq<Value>): (r: Outcome<seq<byte>>)
    ensures (r.Err? && r.error.ArityMismatch?) <==> |item.inputs| != |values|
    ensures r.Ok? <==> EncodeParamsSpec(reg, Types(item.inputs), values).Ok?
    ensures r.Ok? ==> |r.value| >= 4 && |r.value| % 32 == 4
    ensures r.Ok? ==> r.value[..4] == Selector(hash, item) && r.value[4..] == EncodeParamsSpec(reg, Types(item.inputs), values).value
  {
    var params :- EncodeParamsSpec(reg, Types(item.inputs), values);
    var call := Selector(hash, item) + params;
    assert |call| == 4 + 32 * (|params| / 32);
    Ok(call)
  }

  /** A call starts with the selector of the method's signature, and its
      bytes after the selector decode back to the values by the input types,
      when every coder decodes what it encodes and the call is shorter than
      2^256 bytes. */
  lemma MethodCallRoundTrip(reg: Registry, hash: Hash, item: AbiItem, values: seq<Value>)
    requires LawfulRegistry(reg)
    requires EncodeMethod(reg, hash, item, values).Ok?
    requires |EncodeMethod(reg, hash, item, values).value| < WordLimit()
    ensures var call := EncodeMethod(reg, hash, item, values).value;
      && call[..4] == hash(Signature(item.name, Types(item.inputs)))[..4]
      && DecodeParamsSpec(reg, Types(item.inputs), call[4..]) == Walk(values, None)
  {
    var params := EncodeParamsSpec(reg, Types(item.inputs), values).value;
    var call := EncodeMethod(reg, hash, item, values).value;
    assert call[4..] == params;
    DecodeEncodeRoundTrip(reg, Types(item.inputs), values);
  }

  /** `encodeEvent(event, values)`: `encodeMethod` applied to the event, so
      the 4-byte selector of its signature and not its 32-byte topic leads
      the encoded inputs. */
  function EncodeEvent(reg: Registry, hash: Hash, item: AbiItem, values: seq<Value>): (r: Outcome<seq<byte>>)
    ensures (r.Err? && r.error.ArityMismatch?) <==> |item.inputs| != |values|
    ensures r.Ok? ==> |r.value| >= 4 && r.value[..4] == EventTopic(hash, item)[..4]
  {
    EncodeMethod(reg, hash, item, values)
  }

  /** `decodeMethod(method, data)`: the return data decoded by the output
      types into a fresh `Result` with numbered entries and the outputs'
      names, or the error that stopped the walk. */
  method DecodeMethod(reg: Registry, item: AbiItem, data: seq<byte>) returns (values: Result, err: Option<AbiError>)
    ensures fresh(values)
    ensures var w := DecodeParamsSpec(reg, Types(item.outputs), data);
      && err == w.failure
      && values.State() == Stored(Fresh(None), Names(item.outputs), true, w.decoded)
  {
    values := new Result(None);
    err := DecodeParams(reg, Names(item.outputs), Types(item.outputs), data, true, values);
  }

  /** Return data encoded from `vs` by the output types decodes to entries
      holding `vs` at positions 0, 1, ...; the result has no `length`, so
      iterating it (array destructuring) yields nothing. */
  lemma ReturnDataRoundTrip(reg: Registry, item: AbiItem, vs: seq<Value>)
    requires LawfulRegistry(reg)
    requires EncodeParamsSpec(reg, Types(item.outputs), vs).Ok?
    requires |EncodeParamsSpec(reg, Types(item.outputs), vs).value| < WordLimit()
    ensures var w := DecodeParamsSpec(reg, Types(item.outputs), EncodeParamsSpec(reg, Types(item.outputs), vs).value);
      var s := Stored(Fresh(None), Names(item.outputs), true, w.decoded);
      && w.failure.None?
      && (forall k :: 0 <= k < |vs| ==> k in s.indexed && s.indexed[k] == vs[k])
      && |Spread(s)| == 0
  {
    DecodeEncodeRoundTrip(reg, Types(item.outputs), vs);
    forall k | 0 <= k < |vs|
      ensures k in Numbered(map[], vs) && Numbered(map[], vs)[k] == vs[k]
    {
      NumberedAt(map[], vs, k);
    }
  }
}
