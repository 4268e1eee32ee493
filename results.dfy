/** `Result`: the array-like object the decoders fill. Positional entries
    (`values[0]`, `values[1]`, ...) and named entries (`values.amount`) are
    kept apart here; `length` is set only when the constructor is given a
    non-zero size. Iterating it yields `this[0]`, ..., `this[length - 1]`,
    an absent entry yielding `undefined`. */
module Results {
  import opened Outcomes
  import opened Coders

  /** The observable state of a `Result`, as a value. */
  datatype Snapshot = Snapshot(length: Option<nat>, indexed: map<nat, Value>, named: map<string, Value>)
  {
    /** `this[i]`: None stands for `undefined`. */
    function Get(i: nat): (v: Option<Value>)
      ensures v.Some? <==> i in indexed
      ensures v.Some? ==> v.value == indexed[i]
    {
      if i in indexed then Some(indexed[i]) else None
    }

    /** `this.length || 0`: the number of entries iteration visits. */
    function Size(): (n: nat)
      ensures length.Some? ==> n == length.value
      ensures length.None? ==> n == 0
    {
      if length.Some? then length.value else 0
    }
  }

  /** `new Result(size)`: `length` is defined only for a truthy size. */
  function Fresh(size: Option<nat>): (s: Snapshot)
    ensures s.indexed == map[] && s.named == map[]
    ensures s.length.Some? <==> size.Some? && size.value != 0
    ensures s.length.Some? ==> s.length == size
  {
    Snapshot(if size.Some? && size.value != 0 then size else None, map[], map[])
  }

  /** What iterating a result yields: one entry per index below its size. */
  function Spread(s: Snapshot): (vs: seq<Option<Value>>)
    ensures |vs| == s.Size()
    ensures forall i :: 0 <= i < |vs| ==> vs[i] == s.Get(i)
  {
    seq(s.Size(), i requires 0 <= i => s.Get(i))
  }

  class Result {
    var length: Option<nat>
    var indexed: map<nat, Value>
    var named: map<string, Value>

    function State(): Snapshot
      reads this
    {
      Snapshot(length, indexed, named)
    }

    constructor(size: Option<nat>)
      ensures State() == Fresh(size)
    {
      length := if size.Some? && size.value != 0 then size else None;
      indexed := map[];
      named := map[];
    }

    /** `[Symbol.iterator]()`: the size is fixed when the iterator is made,
        the entries are read as it advances. */
    method Iterator() returns (it: ResultIterator)
      ensures fresh(it)
      ensures it.source == this && it.size == State().Size() && it.i == 0
    {
      it := new ResultIterator(this, State().Size());
    }
  }

  class ResultIterator {
    const source: Result
    const size: nat
    var i: nat

    constructor(source: Result, size: nat)
      ensures this.source == source && this.size == size && i == 0
    {
      this.source := source;
      this.size := size;
      i := 0;
    }

    /** `next()`: done once the counter passes `size - 1`; the counter
        advances on every call, done or not. */
    method Next() returns (done: bool, value: Option<Value>)
      modifies this
      ensures done <==> old(i) >= size
      ensures value == if done then None else source.State().Get(old(i))
      ensures i == old(i) + 1
    {
      done := i > size - 1;
      value := if !done then source.State().Get(i) else None;
      i := i + 1;
    }
  }

  /** `[...values]` or a `for..of` loop over a result: `next()` until done. */
  method SpreadResult(r: Result) returns (vs: seq<Option<Value>>)
    ensures vs == Spread(r.State())
  {
    var it := r.Iterator();
    vs := [];
    var done, value := it.Next();
    while !done
      invariant it.i == |vs| + 1 && it.source == r && it.size == r.State().Size()
      invariant |vs| <= it.size && (done <==> |vs| == it.size)
      invariant !done ==> value == r.State().Get(|vs|)
      invariant forall k :: 0 <= k < |vs| ==> vs[k] == r.State().Get(k)
      decreases it.size - |vs|
    {
      vs := vs + [value];
      done, value := it.Next();
    }
  }
}
