/** Optional values, the errors the library throws, and a failure-compatible
    result type that stands for "returns a value or throws". */
module Outcomes {

  datatype Option<+T> = None | Some(value: T)

  /** The exceptions the layout engine and its facade raise. */
  datatype AbiError =
    | ArityMismatch(expected: nat, actual: nat)  // types/values count mismatch while encoding
    | UnsupportedType(typ: string)               // the coder registry does not know the type string
    | InvalidValue(typ: string)                  // the coder refuses to encode the value
    | Truncated                                  // not enough bytes for a declared type
    | MissingTopic(index: nat)                   // a log has no topic at the index an indexed input reads

  datatype Outcome<+T> = Ok(value: T) | Err(error: AbiError) {
    predicate IsFailure() { Err? }

    function PropagateFailure<U>(): Outcome<U>
      requires Err?
    {
      Err(error)
    }

    function Extract(): T
      requires Ok?
    {
      value
    }
  }

  /** `xs` followed by the values of `r`, or `r`'s error. */
  function Prepend<T>(xs: seq<T>, r: Outcome<seq<T>>): (p: Outcome<seq<T>>)
    ensures p.Ok? <==> r.Ok?
    ensures p.Ok? ==> |p.value| == |xs| + |r.value| && p.value[..|xs|] == xs && p.value[|xs|..] == r.value
    ensures p.Err? ==> p == r
  {
    if r.Ok? then Ok(xs + r.value) else r
  }

  lemma PrependPrepend<T>(xs: seq<T>, ys: seq<T>, r: Outcome<seq<T>>)
    ensures Prepend(xs, Prepend(ys, r)) == Prepend(xs + ys, r)
  {
    if r.Ok? {
      assert xs + (ys + r.value) == (xs + ys) + r.value;
    }
  }
}
