/** Event logs: `decodeEvent` splits an event's inputs between the log's
    data (the non-indexed ones, decoded by `decodeParams`) and its topics
    (the indexed ones, each decoded from one topic), `decodeLogItem` decodes
    a log only when its first topic is the event's topic, and `logDecoder`
    keeps the logs that match some event of an interface description. */
module Events {
  import opened Outcomes
  import opened Bytes
  import opened Coders
  import opened Results
  import opened Decoder
  import opened Interface

  /** A log entry: its data and its topics, as bytes. */
  datatype Log = Log(data: seq<byte>, topics: seq<seq<byte>>)

  /** `inputs.filter((input) => !input.indexed)`. */
  function NonIndexed(ps: seq<Input>): (r: seq<Input>)
    ensures |r| <= |ps|
    ensures forall k :: 0 <= k < |r| ==> !r[k].indexed
  {
    if |ps| == 0 then []
    else if ps[0].indexed then NonIndexed(ps[1..])
    else [ps[0]] + NonIndexed(ps[1..])
  }

  /** Topic 0 holds the event's topic unless the event is anonymous. */
  function TopicOffset(item: AbiItem): (off: nat)
    ensures off == 0 <==> item.anonymous
  {
    if item.anonymous then 0 else 1
  }

  /** The number of indexed inputs among the first `i` inputs (among all of
      them once `i` passes the end). */
  function IndexedBefore(inputs: seq<Input>, i: nat): (r: nat)
    ensures r <= i
  {
    if i == 0 then 0
    else IndexedBefore(inputs, i - 1) + (if i - 1 < |inputs| && inputs[i - 1].indexed then 1 else 0)
  }

  /** Counting from the second input on: the first input's mark, plus the
      count among the rest. */
  lemma {:induction false} IndexedBeforeTail(ps: seq<Input>, j: nat)
    requires |ps| > 0 && j >= 1
    ensures IndexedBefore(ps, j) == (if ps[0].indexed then 1 else 0) + IndexedBefore(ps[1..], j - 1)
  {
    if j > 1 {
      IndexedBeforeTail(ps, j - 1);
    }
  }

  /** The filter keeps every non-indexed input, in order: input `j` lands at
      position `j` minus the number of indexed inputs before it. */
  lemma {:induction false} NonIndexedPositions(ps: seq<Input>)
    ensures |NonIndexed(ps)| == |ps| - IndexedBefore(ps, |ps|)
    ensures forall j :: 0 <= j < |ps| && !ps[j].indexed ==>
      j - IndexedBefore(ps, j) < |NonIndexed(ps)| && NonIndexed(ps)[j - IndexedBefore(ps, j)] == ps[j]
  {
    if |ps| > 0 {
      var rest := ps[1..];
      NonIndexedPositions(rest);
      IndexedBeforeTail(ps, |ps|);
      var head: seq<Input> := if ps[0].indexed then [] else [ps[0]];
      var nr := NonIndexed(rest);
      assert NonIndexed(ps) == head + nr;
      forall j | 0 <= j < |ps| && !ps[j].indexed
        ensures j - IndexedBefore(ps, j) < |NonIndexed(ps)| && NonIndexed(ps)[j - IndexedBefore(ps, j)] == ps[j]
      {
        if j > 0 {
          IndexedBeforeTail(ps, j);
          assert rest[j - 1] == ps[j];
          var k := (j - 1) - IndexedBefore(rest, j - 1);
          assert k < |nr| && nr[k] == ps[j];
          assert j - IndexedBefore(ps, j) == |head| + k;
          assert (head + nr)[|head| + k] == nr[k];
        }
      }
    }
  }

  /** Which topic the pass reads for input `i`. */
  type TopicPlan = nat -> nat

  /** The plan of `decodeEvent` as written: `topics[i + topicOffset]`, `i`
      counting all the inputs, indexed or not. */
  function AsWrittenTopics(off: nat): TopicPlan
  {
    i => i + off
  }

  /** The plan the log layout calls for: the `k`-th indexed input (from 0)
      sits at `topics[topicOffset + k]`. */
  function RankedTopics(inputs: seq<Input>, off: nat): TopicPlan
  {
    i => off + IndexedBefore(inputs, i)
  }

  /** The result after `decodeParams` on the data: a `Result` sized by all
      the inputs, holding the non-indexed values under their names only. */
  function EventData(reg: Registry, item: AbiItem, data: seq<byte>): (r: Outcome<Snapshot>)
    ensures r.Ok? ==> r.value.length == Fresh(Some(|item.inputs|)).length && |r.value.indexed| == 0
  {
    var nonIndexed := NonIndexed(item.inputs);
    var w := DecodeParamsSpec(reg, Types(nonIndexed), data);
    if w.failure.Some? then Err(w.failure.value)
    else Ok(Stored(Fresh(Some(|item.inputs|)), Names(nonIndexed), false, w.decoded))
  }

  /** Input `input` at topic index `t`: an indexed input is decoded from
      that topic by its coder and stored under its name. */
  function TopicStep(reg: Registry, input: Input, t: nat, topics: seq<seq<byte>>, s: Snapshot): (r: Outcome<Snapshot>)
    ensures r.Ok? ==> r.value.length == s.length && r.value.indexed == s.indexed
    ensures r.Ok? ==> forall n :: n != input.name ==> (n in r.value.named <==> n in s.named)
    ensures r.Ok? ==> forall n :: n != input.name && n in s.named ==> r.value.named[n] == s.named[n]
    ensures !input.indexed ==> r == Ok(s)
    ensures r.Ok? && input.indexed ==>
      && t < |topics| && reg(input.typ).Some? && reg(input.typ).value.decode(topics[t], 0).Ok?
      && input.name in r.value.named && r.value.named[input.name] == reg(input.typ).value.decode(topics[t], 0).value.value
  {
    if !input.indexed then Ok(s)
    else if t >= |topics| then Err(MissingTopic(t))
    else
      match reg(input.typ)
      case None => Err(UnsupportedType(input.typ))
      case Some(coder) =>
        var d :- coder.decode(topics[t], 0);
        Ok(s.(named := s.named[input.name := d.value]))
  }

  /** `Object.defineProperty(event, i, { value: event[input.name] })`. */
  function Alias(s: Snapshot, i: nat, name: string): (r: Snapshot)
    ensures r.length == s.length && r.named == s.named
    ensures i in r.indexed <==> name in s.named
    ensures i in r.indexed ==> r.indexed[i] == s.named[name]
    ensures forall j :: j != i ==> (j in r.indexed <==> j in s.indexed)
    ensures forall j :: j != i && j in s.indexed ==> r.indexed[j] == s.indexed[j]
  {
    s.(indexed := if name in s.named then s.indexed[i := s.named[name]] else s.indexed - {i})
  }

  /** The callback of `inputs.map` for input `i`, reading its topic where
      the plan `at` says. */
  function EventStep(reg: Registry, input: Input, i: nat, topics: seq<seq<byte>>, at: TopicPlan, numbered: bool, s: Snapshot): Outcome<Snapshot>
  {
    var s1 :- TopicStep(reg, input, at(i), topics, s);
    Ok(if numbered then Alias(s1, i, input.name) else s1)
  }

  /** The callbacks for inputs `0 .. n - 1`, in order; the first error stops
      the pass. */
  function TopicsPass(reg: Registry, inputs: seq<Input>, topics: seq<seq<byte>>, at: TopicPlan, numbered: bool, s: Snapshot, n: nat): (r: Outcome<Snapshot>)
    requires n <= |inputs|
    ensures r.Ok? ==> r.value.length == s.length
  {
    if n == 0 then Ok(s)
    else
      var prev :- TopicsPass(reg, inputs, topics, at, numbered, s, n - 1);
      EventStep(reg, inputs[n - 1], n - 1, topics, at, numbered, prev)
  }

  /** `decodeEvent(event, data, topics, useNumberedParams)` reading the
      topics by the plan `at`: the data pass, the topic pass, then `type` set
      to the event's name. */
  function DecodeEventBy(reg: Registry, item: AbiItem, data: seq<byte>, topics: seq<seq<byte>>, at: TopicPlan, numbered: bool): (r: Outcome<Snapshot>)
    ensures r.Ok? ==> r.value.length == Fresh(Some(|item.inputs|)).length
    ensures r.Ok? ==> "type" in r.value.named && r.value.named["type"] == Text(item.name)
  {
    var s0 :- EventData(reg, item, data);
    var s1 :- TopicsPass(reg, item.inputs, topics, at, numbered, s0, |item.inputs|);
    Ok(s1.(named := s1.named["type" := Text(item.name)]))
  }

  /** `decodeEvent` as written: input `i` reads `topics[i + topicOffset]`,
      so a decoded event had a topic past every indexed input's position
      among all the inputs. */
  function DecodeEventAsWritten(reg: Registry, item: AbiItem, data: seq<byte>, topics: seq<seq<byte>>, numbered: bool): (r: Outcome<Snapshot>)
    ensures r.Ok? ==> forall i :: 0 <= i < |item.inputs| && item.inputs[i].indexed ==> i + TopicOffset(item) < |topics|
  {
    var at := AsWrittenTopics(TopicOffset(item));
    var r := DecodeEventBy(reg, item, data, topics, at, numbered);
    if r.Ok? then PlannedTopicsPresent(reg, item, data, topics, at, numbered); r else r
  }

  /** `decodeEvent` with the topic index corrected to the input's rank among
      the indexed inputs. */
  function DecodeEventSpec(reg: Registry, item: AbiItem, data: seq<byte>, topics: seq<seq<byte>>, numbered: bool): (r: Outcome<Snapshot>)
    ensures r.Ok? ==> forall i :: 0 <= i < |item.inputs| && item.inputs[i].indexed ==>
      TopicOffset(item) + IndexedBefore(item.inputs, i) < |topics|
  {
    var at := RankedTopics(item.inputs, TopicOffset(item));
    var r := DecodeEventBy(reg, item, data, topics, at, numbered);
    if r.Ok? then PlannedTopicsPresent(reg, item, data, topics, at, numbered); r else r
  }

  /** Which topic index an event is decoded with: the one the code computes,
      or the corrected one. */
  datatype Reading = AsWritten | Ranked

  /** `decodeEvent` under the chosen reading. */
  function DecodeEventRead(reg: Registry, item: AbiItem, data: seq<byte>, topics: seq<seq<byte>>, reading: Reading, numbered: bool): Outcome<Snapshot>
  {
    match reading
    case AsWritten => DecodeEventAsWritten(reg, item, data, topics, numbered)
    case Ranked => DecodeEventSpec(reg, item, data, topics, numbered)
  }

  /** A failing callback fails the whole pass with its error. */
  lemma {:induction false} PassStops(reg: Registry, inputs: seq<Input>, topics: seq<seq<byte>>, at: TopicPlan, numbered: bool,
                                     s: Snapshot, i: nat, n: nat, e: AbiError)
    requires i < n <= |inputs| && TopicsPass(reg, inputs, topics, at, numbered, s, i + 1) == Err(e)
    ensures TopicsPass(reg, inputs, topics, at, numbered, s, n) == Err(e)
    decreases n
  {
    if n > i + 1 {
      PassStops(reg, inputs, topics, at, numbered, s, i, n - 1, e);
    }
  }

  /** A callback that fails ends the pass with its error. */
  lemma PassFails(reg: Registry, inputs: seq<Input>, topics: seq<seq<byte>>, at: TopicPlan, numbered: bool,
                  s: Snapshot, i: nat, prev: Snapshot, e: AbiError)
    requires i < |inputs| && TopicsPass(reg, inputs, topics, at, numbered, s, i) == Ok(prev)
    requires TopicStep(reg, inputs[i], at(i), topics, prev) == Err(e)
    ensures TopicsPass(reg, inputs, topics, at, numbered, s, |inputs|) == Err(e)
  {
    PassStops(reg, inputs, topics, at, numbered, s, i, |inputs|, e);
  }

  /** A callback that succeeds extends the pass by one input. */
  lemma PassExtend(reg: Registry, inputs: seq<Input>, topics: seq<seq<byte>>, at: TopicPlan, numbered: bool,
                   s: Snapshot, i: nat, prev: Snapshot, mid: Snapshot)
    requires i < |inputs| && TopicsPass(reg, inputs, topics, at, numbered, s, i) == Ok(prev)
    requires TopicStep(reg, inputs[i], at(i), topics, prev) == Ok(mid)
    ensures TopicsPass(reg, inputs, topics, at, numbered, s, i + 1) == Ok(if numbered then Alias(mid, i, inputs[i].name) else mid)
  {
  }

  /** The callback of `inputs.map` for input `i` on a `Result`: an indexed
      input is decoded from `topics[topicIndex]` and stored under its name;
      with numbered entries on, position `i` is made an alias of the name. */
  method DecodeTopic(reg: Registry, input: Input, i: nat, topics: seq<seq<byte>>, topicIndex: nat, useNumberedParams: bool,
                     event: Result) returns (err: Option<AbiError>)
    modifies event
    ensures var r := TopicStep(reg, input, topicIndex, topics, old(event.State()));
      && (err.None? <==> r.Ok?)
      && (err.Some? ==> r == Err(err.value))
      && (r.Ok? ==> event.State() == if useNumberedParams then Alias(r.value, i, input.name) else r.value)
  {
    if input.indexed {
      if topicIndex >= |topics| {
        return Some(MissingTopic(topicIndex));
      }
      var coder := reg(input.typ);
      if coder.None? {
        return Some(UnsupportedType(input.typ));
      }
      var decoded := coder.value.decode(topics[topicIndex], 0);
      if decoded.Err? {
        return Some(decoded.error);
      }
      event.named := event.named[input.name := decoded.value.value];
    }
    if useNumberedParams {
      if input.name in event.named {
        event.indexed := event.indexed[i := event.named[input.name]];
      } else {
        event.indexed := event.indexed - {i};
      }
    }
    return None;
  }

  /** The `inputs.map` pass of `decodeEvent` over a `Result`: input `i`, when
      indexed, is decoded from `topics[i + topicOffset]`, `i` counting all
      the inputs. */
  method DecodeTopics(reg: Registry, inputs: seq<Input>, topics: seq<seq<byte>>, topicOffset: nat, useNumberedParams: bool,
                      event: Result) returns (err: Option<AbiError>)
    modifies event
    ensures var p := TopicsPass(reg, inputs, topics, AsWrittenTopics(topicOffset), useNumberedParams, old(event.State()), |inputs|);
      && (err.None? <==> p.Ok?)
      && (err.Some? ==> p == Err(err.value))
      && (p.Ok? ==> event.State() == p.value)
  {
    ghost var s0 := event.State();
    ghost var at := AsWrittenTopics(topicOffset);
    err := None;
    var i := 0;
    while i < |inputs|
      invariant i <= |inputs| && err.None?
      invariant TopicsPass(reg, inputs, topics, at, useNumberedParams, s0, i) == Ok(event.State())
    {
      var input := inputs[i];
      ghost var before := event.State();
      var topicIndex := i + topicOffset;
      assert topicIndex == at(i);
      err := DecodeTopic(reg, input, i, topics, topicIndex, useNumberedParams, event);
      if err.Some? {
        PassFails(reg, inputs, topics, at, useNumberedParams, s0, i, before, err.value);
        return;
      }
      PassExtend(reg, inputs, topics, at, useNumberedParams, s0, i, before, TopicStep(reg, input, topicIndex, topics, before).value);
      i := i + 1;
    }
  }

  /** `decodeEvent`: the new `Result` holding the event's values, or the
      error raised on the way. */
  method DecodeEvent(reg: Registry, item: AbiItem, data: seq<byte>, topics: seq<seq<byte>>, useNumberedParams: bool)
      returns (r: Outcome<Result>)
    ensures r.Ok? <==> DecodeEventAsWritten(reg, item, data, topics, useNumberedParams).Ok?
    ensures r.Err? ==> r.error == DecodeEventAsWritten(reg, item, data, topics, useNumberedParams).error
    ensures r.Ok? ==> fresh(r.value) && r.value.State() == DecodeEventAsWritten(reg, item, data, topics, useNumberedParams).value
  {
    var nonIndexed := NonIndexed(item.inputs);
    var event := new Result(Some(|item.inputs|));
    var failure := DecodeParams(reg, Names(nonIndexed), Types(nonIndexed), data, false, event);
    if failure.Some? {
      return Err(failure.value);
    }
    assert EventData(reg, item, data) == Ok(event.State());
    var topicOffset := if item.anonymous then 0 else 1;
    failure := DecodeTopics(reg, item.inputs, topics, topicOffset, useNumberedParams, event);
    if failure.Some? {
      return Err(failure.value);
    }
    event.named := event.named["type" := Text(item.name)];
    r := Ok(event);
  }

  // ---- what a decoded event holds ----

  /** A pass that reaches input `n` went through every earlier input. */
  lemma {:induction false} PassPrefixOk(reg: Registry, inputs: seq<Input>, topics: seq<seq<byte>>, at: TopicPlan, numbered: bool,
                                        s: Snapshot, m: nat, n: nat)
    requires m <= n <= |inputs| && TopicsPass(reg, inputs, topics, at, numbered, s, n).Ok?
    ensures TopicsPass(reg, inputs, topics, at, numbered, s, m).Ok?
    decreases n
  {
    if m < n {
      PassPrefixOk(reg, inputs, topics, at, numbered, s, m, n - 1);
    }
  }

  /** Callbacks `m .. n - 1` leave a name alone that none of their indexed
      inputs carries. */
  lemma {:induction false} PassKeepsName(reg: Registry, inputs: seq<Input>, topics: seq<seq<byte>>, at: TopicPlan, numbered: bool,
                                         s: Snapshot, name: string, m: nat, n: nat)
    requires m <= n <= |inputs| && TopicsPass(reg, inputs, topics, at, numbered, s, n).Ok?
    requires forall j :: m <= j < n && inputs[j].indexed ==> inputs[j].name != name
    ensures TopicsPass(reg, inputs, topics, at, numbered, s, m).Ok?
    ensures var a, b := TopicsPass(reg, inputs, topics, at, numbered, s, m).value, TopicsPass(reg, inputs, topics, at, numbered, s, n).value;
      && (name in b.named <==> name in a.named)
      && (name in a.named ==> b.named[name] == a.named[name])
    decreases n
  {
    if m < n {
      PassKeepsName(reg, inputs, topics, at, numbered, s, name, m, n - 1);
    }
  }

  /** Callbacks after input `i` leave position `i` alone. */
  lemma {:induction false} PassKeepsIndex(reg: Registry, inputs: seq<Input>, topics: seq<seq<byte>>, at: TopicPlan, numbered: bool,
                                          s: Snapshot, i: nat, m: nat, n: nat)
    requires i < m <= n <= |inputs| && TopicsPass(reg, inputs, topics, at, numbered, s, n).Ok?
    ensures TopicsPass(reg, inputs, topics, at, numbered, s, m).Ok?
    ensures var a, b := TopicsPass(reg, inputs, topics, at, numbered, s, m).value, TopicsPass(reg, inputs, topics, at, numbered, s, n).value;
      && (i in b.indexed <==> i in a.indexed)
      && (i in a.indexed ==> b.indexed[i] == a.indexed[i])
    decreases n
  {
    if m < n {
      PassKeepsIndex(reg, inputs, topics, at, numbered, s, i, m, n - 1);
    }
  }

  /** A decoded event is the completed pass with `type` set. */
  lemma EventPass(reg: Registry, item: AbiItem, data: seq<byte>, topics: seq<seq<byte>>, at: TopicPlan, numbered: bool)
    requires DecodeEventBy(reg, item, data, topics, at, numbered).Ok?
    ensures EventData(reg, item, data).Ok?
    ensures var p := TopicsPass(reg, item.inputs, topics, at, numbered, EventData(reg, item, data).value, |item.inputs|);
      && p.Ok?
      && DecodeEventBy(reg, item, data, topics, at, numbered).value == p.value.(named := p.value.named["type" := Text(item.name)])
  {
  }

  /** When the pass reaches input `i + 1`, callback `i` succeeded on the
      pass up to input `i`. */
  lemma PassStep(reg: Registry, inputs: seq<Input>, topics: seq<seq<byte>>, at: TopicPlan, numbered: bool, s: Snapshot, i: nat)
    requires i < |inputs| && TopicsPass(reg, inputs, topics, at, numbered, s, i + 1).Ok?
    ensures TopicsPass(reg, inputs, topics, at, numbered, s, i).Ok?
    ensures var prev := TopicsPass(reg, inputs, topics, at, numbered, s, i).value;
      TopicStep(reg, inputs[i], at(i), topics, prev).Ok?
      && TopicsPass(reg, inputs, topics, at, numbered, s, i + 1).value
         == (var s1 := TopicStep(reg, inputs[i], at(i), topics, prev).value; if numbered then Alias(s1, i, inputs[i].name) else s1)
  {
  }

  /** A decoded event had, for each indexed input `i`, the topic the plan
      names for it, and that topic decoded by the input's coder. */
  lemma TopicsPresent(reg: Registry, item: AbiItem, data: seq<byte>, topics: seq<seq<byte>>, at: TopicPlan, numbered: bool, i: nat)
    requires DecodeEventBy(reg, item, data, topics, at, numbered).Ok?
    requires i < |item.inputs| && item.inputs[i].indexed
    ensures at(i) < |topics|
    ensures reg(item.inputs[i].typ).Some? && reg(item.inputs[i].typ).value.decode(topics[at(i)], 0).Ok?
  {
    EventPass(reg, item, data, topics, at, numbered);
    PassTopic(reg, item.inputs, topics, at, numbered, EventData(reg, item, data).value, i, |item.inputs|);
  }

  /** A decoded event had the topic the plan names for every indexed input. */
  lemma PlannedTopicsPresent(reg: Registry, item: AbiItem, data: seq<byte>, topics: seq<seq<byte>>, at: TopicPlan, numbered: bool)
    requires DecodeEventBy(reg, item, data, topics, at, numbered).Ok?
    ensures forall i :: 0 <= i < |item.inputs| && item.inputs[i].indexed ==> at(i) < |topics|
  {
    forall i | 0 <= i < |item.inputs| && item.inputs[i].indexed
      ensures at(i) < |topics|
    {
      TopicsPresent(reg, item, data, topics, at, numbered, i);
    }
  }

  /** As written, a decoded event had, for each indexed input `i`, the topic
      `topics[i + offset]` (offset 1 unless anonymous), `i` counting all the
      inputs, and that topic decoded by the input's coder. */
  lemma AsWrittenTopicsPresent(reg: Registry, item: AbiItem, data: seq<byte>, topics: seq<seq<byte>>, numbered: bool, i: nat)
    requires DecodeEventAsWritten(reg, item, data, topics, numbered).Ok?
    requires i < |item.inputs| && item.inputs[i].indexed
    ensures i + TopicOffset(item) < |topics|
    ensures reg(item.inputs[i].typ).Some? && reg(item.inputs[i].typ).value.decode(topics[i + TopicOffset(item)], 0).Ok?
  {
    TopicsPresent(reg, item, data, topics, AsWrittenTopics(TopicOffset(item)), numbered, i);
  }

  /** A pass that went past indexed input `i` found its topic and decoded it. */
  lemma PassTopic(reg: Registry, inputs: seq<Input>, topics: seq<seq<byte>>, at: TopicPlan, numbered: bool, s: Snapshot, i: nat, n: nat)
    requires i < n <= |inputs| && inputs[i].indexed && TopicsPass(reg, inputs, topics, at, numbered, s, n).Ok?
    ensures at(i) < |topics|
    ensures reg(inputs[i].typ).Some? && reg(inputs[i].typ).value.decode(topics[at(i)], 0).Ok?
  {
    PassPrefixOk(reg, inputs, topics, at, numbered, s, i + 1, n);
    PassStep(reg, inputs, topics, at, numbered, s, i);
    var prev := TopicsPass(reg, inputs, topics, at, numbered, s, i).value;
    assert TopicStep(reg, inputs[i], at(i), topics, prev).Ok?;
  }

  /** An indexed input whose name no later indexed input carries, and which
      is not `type`, is the entry under its name: the value its coder reads
      from the topic the plan names; with numbered entries on, the same value
      sits at its position among all the inputs. */
  lemma IndexedInputValue(reg: Registry, item: AbiItem, data: seq<byte>, topics: seq<seq<byte>>, at: TopicPlan, numbered: bool, i: nat)
    requires DecodeEventBy(reg, item, data, topics, at, numbered).Ok?
    requires i < |item.inputs| && item.inputs[i].indexed && item.inputs[i].name != "type"
    requires forall j :: i < j < |item.inputs| && item.inputs[j].indexed ==> item.inputs[j].name != item.inputs[i].name
    ensures var s, input, t := DecodeEventBy(reg, item, data, topics, at, numbered).value, item.inputs[i], at(i);
      && t < |topics| && reg(input.typ).Some? && reg(input.typ).value.decode(topics[t], 0).Ok?
      && input.name in s.named && s.named[input.name] == reg(input.typ).value.decode(topics[t], 0).value.value
      && (numbered ==> i in s.indexed && s.indexed[i] == s.named[input.name])
  {
    EventPass(reg, item, data, topics, at, numbered);
    var s0, n := EventData(reg, item, data).value, |item.inputs|;
    var input := item.inputs[i];
    PassKeepsIndex(reg, item.inputs, topics, at, numbered, s0, i, i + 1, n);
    PassKeepsName(reg, item.inputs, topics, at, numbered, s0, input.name, i + 1, n);
    PassStep(reg, item.inputs, topics, at, numbered, s0, i);
    var prev := TopicsPass(reg, item.inputs, topics, at, numbered, s0, i).value;
    var s1 := TopicStep(reg, input, at(i), topics, prev).value;
    var p1 := TopicsPass(reg, item.inputs, topics, at, numbered, s0, i + 1).value;
    assert p1.named == s1.named && input.name in s1.named;
    assert numbered ==> i in p1.indexed && p1.indexed[i] == s1.named[input.name];
  }

  /** With numbered entries on, position `i` and the name of input `i` hold
      the same entry, or neither holds one, unless a later indexed input
      reuses the name or the name is `type`. */
  lemma NumberedAliasesNamed(reg: Registry, item: AbiItem, data: seq<byte>, topics: seq<seq<byte>>, at: TopicPlan, i: nat)
    requires DecodeEventBy(reg, item, data, topics, at, true).Ok?
    requires i < |item.inputs| && item.inputs[i].name != "type"
    requires forall j :: i < j < |item.inputs| && item.inputs[j].indexed ==> item.inputs[j].name != item.inputs[i].name
    ensures var s, name := DecodeEventBy(reg, item, data, topics, at, true).value, item.inputs[i].name;
      && (i in s.indexed <==> name in s.named)
      && (i in s.indexed ==> s.indexed[i] == s.named[name])
  {
    EventPass(reg, item, data, topics, at, true);
    var s0 := EventData(reg, item, data).value;
    var n := |item.inputs|;
    PassKeepsIndex(reg, item.inputs, topics, at, true, s0, i, i + 1, n);
    PassKeepsName(reg, item.inputs, topics, at, true, s0, item.inputs[i].name, i + 1, n);
    PassStep(reg, item.inputs, topics, at, true, s0, i);
  }

  /** A non-indexed input with a non-empty name that no later non-indexed
      input and no indexed input carries, and which is not `type`, is the
      entry under its name: the value `decodeParams` decoded for it from the
      data, by its position among the non-indexed inputs. */
  lemma NonIndexedInputValue(reg: Registry, item: AbiItem, data: seq<byte>, topics: seq<seq<byte>>, at: TopicPlan, numbered: bool, k: nat)
    requires DecodeEventBy(reg, item, data, topics, at, numbered).Ok?
    requires k < |NonIndexed(item.inputs)|
    requires NonIndexed(item.inputs)[k].name != "" && NonIndexed(item.inputs)[k].name != "type"
    requires forall j :: k < j < |NonIndexed(item.inputs)| ==> NonIndexed(item.inputs)[j].name != NonIndexed(item.inputs)[k].name
    requires forall j :: 0 <= j < |item.inputs| && item.inputs[j].indexed ==> item.inputs[j].name != NonIndexed(item.inputs)[k].name
    ensures var s, nm := DecodeEventBy(reg, item, data, topics, at, numbered).value, NonIndexed(item.inputs)[k].name;
      var w := DecodeParamsSpec(reg, Types(NonIndexed(item.inputs)), data);
      && w.failure.None? && |w.decoded| == |NonIndexed(item.inputs)|
      && nm in s.named && s.named[nm] == w.decoded[k]
  {
    EventPass(reg, item, data, topics, at, numbered);
    var nonIndexed := NonIndexed(item.inputs);
    var nm := nonIndexed[k].name;
    var w := DecodeParamsSpec(reg, Types(nonIndexed), data);
    var s0 := EventData(reg, item, data).value;
    assert s0 == Stored(Fresh(Some(|item.inputs|)), Names(nonIndexed), false, w.decoded);
    NamedAt(map[], Names(nonIndexed), w.decoded, k);
    PassKeepsName(reg, item.inputs, topics, at, numbered, s0, nm, 0, |item.inputs|);
  }

  // ---- the topic index ----

  /** The count of indexed inputs grows with the prefix, and strictly past
      an indexed input. */
  lemma {:induction false} IndexedBeforeGrows(inputs: seq<Input>, i: nat, j: nat)
    requires i <= j
    ensures IndexedBefore(inputs, i) <= IndexedBefore(inputs, j)
    ensures i < j && i < |inputs| && inputs[i].indexed ==> IndexedBefore(inputs, i) < IndexedBefore(inputs, j)
    decreases j
  {
    if i < j {
      IndexedBeforeGrows(inputs, i, j - 1);
    }
  }

  /** The corrected plan reads the indexed inputs from consecutive topics
      after the offset, in declaration order: each from its own topic, all
      of them among the first `offset + number of indexed inputs` topics, so
      a log with one topic per indexed input holds every topic it reads. */
  lemma RankedTopicsFit(inputs: seq<Input>, off: nat, i: nat, j: nat)
    requires i < j < |inputs| && inputs[i].indexed && inputs[j].indexed
    ensures off <= RankedTopics(inputs, off)(i) < RankedTopics(inputs, off)(j)
    ensures RankedTopics(inputs, off)(j) < off + IndexedBefore(inputs, |inputs|)
  {
    IndexedBeforeGrows(inputs, i, j);
    IndexedBeforeGrows(inputs, j, |inputs|);
  }

  /** The corrected plan starts at the offset and moves on by one past each
      indexed input. */
  lemma RankedTopicsStep(inputs: seq<Input>, off: nat, i: nat)
    requires i < |inputs|
    ensures RankedTopics(inputs, off)(0) == off
    ensures RankedTopics(inputs, off)(i + 1) == RankedTopics(inputs, off)(i) + if inputs[i].indexed then 1 else 0
  {
  }

  /** The event `E(uint256 a, uint256 indexed b)`. */
  function SampleEvent(): AbiItem
  {
    AbiItem("event", "E", [Input("a", "uint256", false), Input("b", "uint256", true)], [], false)
  }

  /** The registry's `uint256` coder reads back a word it wrote. */
  lemma SampleWord(x: nat)
    requires x < WordLimit()
    ensures CoreRegistry("uint256") == Some(Uint256Coder)
    ensures Uint256Decode(Word(x), 0) == Ok(Decoded(Num(x), 32))
  {
    WordRoundTrip(Word(x), 0, x);
  }

  /** The data word of `x` decodes as `a`. */
  lemma SampleData(x: nat)
    requires x < WordLimit()
    ensures EventData(CoreRegistry, SampleEvent(), Word(x)) == Ok(Snapshot(Some(2), map[], map["a" := Num(x)]))
  {
    var a, b := Input("a", "uint256", false), Input("b", "uint256", true);
    var inputs := SampleEvent().inputs;
    assert inputs == [a, b];
    assert NonIndexed(inputs) == [a] by {
      assert inputs[1..] == [b] && [b][1..] == [];
    }
    assert Types([a]) == ["uint256"] && Names([a]) == ["a"];
    SampleWord(x);
    assert DecodeOne(CoreRegistry, "uint256", Word(x), 0) == Ok(Decoded(Num(x), 32));
    assert ["uint256"][1..] == [];
    assert DecodeParamsSpec(CoreRegistry, ["uint256"], Word(x)) == Walk([Num(x)], None);
    assert [Num(x)][..0] == [];
    assert NameAt(["a"], 0) == Some("a");
    assert Named(map[], ["a"], [Num(x)]) == map["a" := Num(x)];
  }

  /** A log of the sample event: `y` in the topic after the event's topic. */
  function SampleTopics(hash: Hash, y: nat): seq<seq<byte>>
  {
    [EventTopic(hash, SampleEvent()), Word(y)]
  }

  /** The sample's topic pass up to `b`: `a` is not indexed, so it reads no
      topic. */
  lemma SamplePassToB(hash: Hash, x: nat, y: nat, at: TopicPlan, numbered: bool)
    ensures var s0 := Snapshot(Some(2), map[], map["a" := Num(x)]);
      TopicsPass(CoreRegistry, SampleEvent().inputs, SampleTopics(hash, y), at, numbered, s0, 1)
      == Ok(if numbered then Alias(s0, 0, "a") else s0)
  {
    var s0 := Snapshot(Some(2), map[], map["a" := Num(x)]);
    PassExtend(CoreRegistry, SampleEvent().inputs, SampleTopics(hash, y), at, numbered, s0, 0, s0, s0);
  }

  /** As written, `decodeEvent` looks for the sample's `b` in `topics[2]`,
      which a log carrying `a = x` in its data and `b = y` in `topics[1]`
      does not have. */
  lemma AsWrittenMissesTopic(hash: Hash, x: nat, y: nat, numbered: bool)
    requires x < WordLimit()
    ensures DecodeEventAsWritten(CoreRegistry, SampleEvent(), Word(x), SampleTopics(hash, y), numbered) == Err(MissingTopic(2))
  {
    var s0 := Snapshot(Some(2), map[], map["a" := Num(x)]);
    var at := AsWrittenTopics(1);
    SampleData(x);
    SamplePassToB(hash, x, y, at, numbered);
    assert at(1) == 2;
    PassFails(CoreRegistry, SampleEvent().inputs, SampleTopics(hash, y), at, numbered, s0, 1,
              if numbered then Alias(s0, 0, "a") else s0, MissingTopic(2));
  }

  /** With the corrected topic index the sample's topic pass reads `b` from
      `topics[1]`. */
  lemma RankedSamplePass(hash: Hash, x: nat, y: nat, numbered: bool)
    requires y < WordLimit()
    ensures var s0 := Snapshot(Some(2), map[], map["a" := Num(x)]);
      var inputs := SampleEvent().inputs;
      var p := TopicsPass(CoreRegistry, inputs, SampleTopics(hash, y), RankedTopics(inputs, 1), numbered, s0, 2);
      p.Ok? && p.value.named == map["a" := Num(x), "b" := Num(y)]
  {
    var inputs, topics := SampleEvent().inputs, SampleTopics(hash, y);
    var s0 := Snapshot(Some(2), map[], map["a" := Num(x)]);
    var p1 := if numbered then Alias(s0, 0, "a") else s0;
    var at := RankedTopics(inputs, 1);
    SampleWord(y);
    SamplePassToB(hash, x, y, at, numbered);
    RankedTopicsStep(inputs, 1, 0);
    assert at(1) == 1;
    var s2 := p1.(named := map["a" := Num(x), "b" := Num(y)]);
    assert TopicStep(CoreRegistry, inputs[1], at(1), topics, p1) == Ok(s2);
    PassExtend(CoreRegistry, inputs, topics, at, numbered, s0, 1, p1, s2);
  }

  /** With the corrected topic index a log carrying `a = x` in its data and
      `b = y` in `topics[1]` decodes to `a = x` and `b = y`. */
  lemma RankedReadsSample(hash: Hash, x: nat, y: nat, numbered: bool)
    requires x < WordLimit() && y < WordLimit()
    ensures var r := DecodeEventSpec(CoreRegistry, SampleEvent(), Word(x), SampleTopics(hash, y), numbered);
      && r.Ok? && "a" in r.value.named && "b" in r.value.named
      && r.value.named["a"] == Num(x) && r.value.named["b"] == Num(y)
  {
    SampleData(x);
    RankedSamplePass(hash, x, y, numbered);
    assert TopicOffset(SampleEvent()) == 1;
    assert "a" != "type" && "b" != "type";
  }
}
