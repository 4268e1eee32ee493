/** Matching log entries against events: `decodeLogItem` for one event and
    one log, and `logDecoder`, which indexes the events of an interface
    description by topic and decodes the logs whose first topic it knows. */
module Logs {
  import opened Outcomes
  import opened Bytes
  import opened Coders
  import opened Results
  import opened Interface
  import opened Events

  /** `eventObject && log.topics[0] === eventSignature(eventObject)`. */
  predicate Matches(hash: Hash, item: Option<AbiItem>, log: Log): (b: bool)
    ensures b ==> item.Some? && |log.topics| > 0 && |log.topics[0]| == 32 && log.topics[0][..4] == Selector(hash, item.value)
  {
    item.Some? && |log.topics| > 0 && log.topics[0] == EventTopic(hash, item.value)
  }

  /** `decodeLogItem(event, log, useNumberedParams)`: nothing (`undefined`)
      when the log is not one of the event's, else the event decoded under
      `reading` (`AsWritten` is the code's `decodeEvent`) or the error raised
      while decoding it. */
  function DecodeLogItem(reg: Registry, hash: Hash, item: Option<AbiItem>, log: Log, reading: Reading, numbered: bool): (r: Outcome<Option<Snapshot>>)
    ensures r == Ok(None) <==> !Matches(hash, item, log)
    ensures r.Ok? && r.value.Some? ==> DecodeEventRead(reg, item.value, log.data, log.topics, reading, numbered) == Ok(r.value.value)
    ensures r.Err? ==> Matches(hash, item, log) && DecodeEventRead(reg, item.value, log.data, log.topics, reading, numbered) == Err(r.error)
  {
    if Matches(hash, item, log) then
      var s :- DecodeEventRead(reg, item.value, log.data, log.topics, reading, numbered);
      Ok(Some(s))
    else Ok(None)
  }

  /** The `eventMap` of `logDecoder`: each event item of `abi` under its
      topic, a later item replacing an earlier one with the same topic. */
  function EventMap(hash: Hash, abi: seq<AbiItem>): (m: map<seq<byte>, AbiItem>)
    ensures forall k :: k in m ==> m[k].kind == "event" && EventTopic(hash, m[k]) == k
    ensures forall j :: 0 <= j < |abi| && abi[j].kind == "event" ==> EventTopic(hash, abi[j]) in m
  {
    if |abi| == 0 then map[]
    else
      var n := |abi| - 1;
      var m := EventMap(hash, abi[..n]);
      if abi[n].kind == "event" then m[EventTopic(hash, abi[n]) := abi[n]] else m
  }

  /** Every item the map holds is an item of `abi`. */
  lemma {:induction false} EventMapItems(hash: Hash, abi: seq<AbiItem>, k: seq<byte>)
    requires k in EventMap(hash, abi)
    ensures exists j :: 0 <= j < |abi| && abi[j] == EventMap(hash, abi)[k]
  {
    var n := |abi| - 1;
    if EventMap(hash, abi)[k] != abi[n] {
      EventMapItems(hash, abi[..n], k);
      var j :| 0 <= j < n && abi[..n][j] == EventMap(hash, abi[..n])[k];
      assert abi[j] == EventMap(hash, abi)[k];
    }
  }

  /** An event item that no later event item shares a topic with is the
      one the map holds under its topic. */
  lemma {:induction false} EventMapLast(hash: Hash, abi: seq<AbiItem>, j: nat)
    requires j < |abi| && abi[j].kind == "event"
    requires forall i :: j < i < |abi| && abi[i].kind == "event" ==> EventTopic(hash, abi[i]) != EventTopic(hash, abi[j])
    ensures EventMap(hash, abi)[EventTopic(hash, abi[j])] == abi[j]
  {
    var n := |abi| - 1;
    var front := abi[..n];
    if j < n {
      assert front[j] == abi[j];
      assert forall i :: j < i < |front| ==> front[i] == abi[i];
      EventMapLast(hash, front, j);
      assert abi[n].kind == "event" ==> EventTopic(hash, abi[n]) != EventTopic(hash, abi[j]);
    }
  }

  /** `eventMap[log.topics[0]]`: the event the map holds under the log's
      first topic. */
  function Lookup(m: map<seq<byte>, AbiItem>, log: Log): (item: Option<AbiItem>)
    ensures item.Some? <==> |log.topics| > 0 && log.topics[0] in m
  {
    if |log.topics| > 0 && log.topics[0] in m then Some(m[log.topics[0]]) else None
  }

  /** `logItems.map(log => decodeLogItem(eventMap[log.topics[0]], log))
      .filter(i => i)`: the decoded logs, in order, or the first error. */
  function DecodeLogs(reg: Registry, hash: Hash, m: map<seq<byte>, AbiItem>, logs: seq<Log>, reading: Reading, numbered: bool): (r: Outcome<seq<Snapshot>>)
    ensures r.Ok? ==> |r.value| <= |logs|
  {
    if |logs| == 0 then Ok([])
    else
      var first :- DecodeLogItem(reg, hash, Lookup(m, logs[0]), logs[0], reading, numbered);
      var rest :- DecodeLogs(reg, hash, m, logs[1..], reading, numbered);
      Ok((if first.Some? then [first.value] else []) + rest)
  }

  /** `logDecoder(abi, useNumberedParams)(logItems)`. */
  function LogDecoder(reg: Registry, hash: Hash, abi: seq<AbiItem>, logs: seq<Log>, reading: Reading, numbered: bool): (r: Outcome<seq<Snapshot>>)
    ensures r.Ok? ==> |r.value| <= |logs|
  {
    DecodeLogs(reg, hash, EventMap(hash, abi), logs, reading, numbered)
  }

  /** One step of `DecodeLogs`: the first log, then the rest. */
  lemma DecodeLogsStep(reg: Registry, hash: Hash, m: map<seq<byte>, AbiItem>, logs: seq<Log>, reading: Reading, numbered: bool)
    requires |logs| > 0
    ensures DecodeLogs(reg, hash, m, logs, reading, numbered)
      == (var first :- DecodeLogItem(reg, hash, Lookup(m, logs[0]), logs[0], reading, numbered);
          var rest :- DecodeLogs(reg, hash, m, logs[1..], reading, numbered);
          Ok((if first.Some? then [first.value] else []) + rest))
  {
  }

  /** The logs whose first topic the map knows, in order. */
  function Known(m: map<seq<byte>, AbiItem>, logs: seq<Log>): (ks: seq<Log>)
    ensures |ks| <= |logs|
    ensures forall k :: 0 <= k < |ks| ==> Lookup(m, ks[k]).Some?
  {
    if |logs| == 0 then []
    else if Lookup(m, logs[0]).Some? then [logs[0]] + Known(m, logs[1..])
    else Known(m, logs[1..])
  }

  /** The event the map holds for a known log, decoded from that log. */
  function DecodeKnown(reg: Registry, m: map<seq<byte>, AbiItem>, log: Log, reading: Reading, numbered: bool): Outcome<Snapshot>
    requires Lookup(m, log).Some?
  {
    DecodeEventRead(reg, Lookup(m, log).value, log.data, log.topics, reading, numbered)
  }

  /** The values of a list of outcomes, in order, or the first error. */
  function Collect<U>(os: seq<Outcome<U>>): Outcome<seq<U>>
  {
    if |os| == 0 then Ok([])
    else
      var first :- os[0];
      var rest :- Collect(os[1..]);
      Ok([first] + rest)
  }

  /** Collecting succeeds exactly when every outcome is a value, and then
      gives those values in order. */
  lemma {:induction false} CollectOk<U>(os: seq<Outcome<U>>)
    ensures var r := Collect(os);
      && (r.Ok? <==> forall k :: 0 <= k < |os| ==> os[k].Ok?)
      && (r.Ok? ==> |r.value| == |os| && forall k :: 0 <= k < |os| ==> r.value[k] == os[k].value)
  {
    if |os| > 0 {
      CollectOk(os[1..]);
      assert forall k :: 0 < k < |os| ==> os[1..][k - 1] == os[k];
    }
  }

  /** Each known log decoded on its own. */
  function EachKnown(reg: Registry, m: map<seq<byte>, AbiItem>, ks: seq<Log>, reading: Reading, numbered: bool): (os: seq<Outcome<Snapshot>>)
    requires forall k :: 0 <= k < |ks| ==> Lookup(m, ks[k]).Some?
    ensures |os| == |ks| && forall k :: 0 <= k < |ks| ==> os[k] == DecodeKnown(reg, m, ks[k], reading, numbered)
  {
    seq(|ks|, k requires 0 <= k < |ks| => DecodeKnown(reg, m, ks[k], reading, numbered))
  }

  /** The known logs decoded one by one, in order, or the first error. */
  function DecodeAllKnown(reg: Registry, m: map<seq<byte>, AbiItem>, ks: seq<Log>, reading: Reading, numbered: bool): Outcome<seq<Snapshot>>
    requires forall k :: 0 <= k < |ks| ==> Lookup(m, ks[k]).Some?
  {
    Collect(EachKnown(reg, m, ks, reading, numbered))
  }

  /** Decoding known logs one by one succeeds exactly when each decodes,
      and then gives their events in order. */
  lemma AllKnownDecoded(reg: Registry, m: map<seq<byte>, AbiItem>, ks: seq<Log>, reading: Reading, numbered: bool)
    requires forall k :: 0 <= k < |ks| ==> Lookup(m, ks[k]).Some?
    ensures var r := DecodeAllKnown(reg, m, ks, reading, numbered);
      && (r.Ok? <==> forall k :: 0 <= k < |ks| ==> DecodeKnown(reg, m, ks[k], reading, numbered).Ok?)
      && (r.Ok? ==> |r.value| == |ks| && forall k :: 0 <= k < |ks| ==> r.value[k] == DecodeKnown(reg, m, ks[k], reading, numbered).value)
  {
    CollectOk(EachKnown(reg, m, ks, reading, numbered));
  }

  /** The known logs of `logs`, decoded one by one. */
  function KnownDecoded(reg: Registry, m: map<seq<byte>, AbiItem>, logs: seq<Log>, reading: Reading, numbered: bool): Outcome<seq<Snapshot>>
  {
    DecodeAllKnown(reg, m, Known(m, logs), reading, numbered)
  }

  /** A log the map does not know adds nothing; a known log adds its event. */
  lemma KnownDecodedStep(reg: Registry, m: map<seq<byte>, AbiItem>, logs: seq<Log>, reading: Reading, numbered: bool)
    requires |logs| > 0
    ensures Lookup(m, logs[0]).None? ==> KnownDecoded(reg, m, logs, reading, numbered) == KnownDecoded(reg, m, logs[1..], reading, numbered)
    ensures Lookup(m, logs[0]).Some? ==>
      KnownDecoded(reg, m, logs, reading, numbered)
      == (var first :- DecodeKnown(reg, m, logs[0], reading, numbered);
          var rest :- KnownDecoded(reg, m, logs[1..], reading, numbered);
          Ok([first] + rest))
  {
    var ks := Known(m, logs);
    if Lookup(m, logs[0]).Some? {
      assert ks[0] == logs[0] && ks[1..] == Known(m, logs[1..]);
      var os := EachKnown(reg, m, ks, reading, numbered);
      assert os[1..] == EachKnown(reg, m, ks[1..], reading, numbered);
    }
  }

  /** With a map whose keys are their items' topics, `decodeLogItem` on the
      event the map holds for a log gives nothing for an unknown log and the
      decoded event for a known one. */
  lemma LogItemOfKnown(reg: Registry, hash: Hash, m: map<seq<byte>, AbiItem>, log: Log, reading: Reading, numbered: bool)
    requires forall k :: k in m ==> EventTopic(hash, m[k]) == k
    ensures Lookup(m, log).None? ==> DecodeLogItem(reg, hash, Lookup(m, log), log, reading, numbered) == Ok(None)
    ensures Lookup(m, log).Some? ==>
      var d := DecodeKnown(reg, m, log, reading, numbered);
      DecodeLogItem(reg, hash, Lookup(m, log), log, reading, numbered) == if d.Ok? then Ok(Some(d.value)) else Err(d.error)
  {
    if Lookup(m, log).Some? {
      assert Matches(hash, Lookup(m, log), log);
    }
  }

  /** With a map whose keys are their items' topics, decoding the logs is
      decoding the known ones: the others give nothing. */
  lemma {:induction false} DecodeLogsKeepsKnown(reg: Registry, hash: Hash, m: map<seq<byte>, AbiItem>, logs: seq<Log>, reading: Reading, numbered: bool)
    requires forall k :: k in m ==> EventTopic(hash, m[k]) == k
    ensures DecodeLogs(reg, hash, m, logs, reading, numbered) == KnownDecoded(reg, m, logs, reading, numbered)
  {
    if |logs| == 0 {
      assert |Known(m, logs)| == 0;
    } else {
      var l := logs[0];
      DecodeLogsKeepsKnown(reg, hash, m, logs[1..], reading, numbered);
      DecodeLogsStep(reg, hash, m, logs, reading, numbered);
      KnownDecodedStep(reg, m, logs, reading, numbered);
      LogItemOfKnown(reg, hash, m, l, reading, numbered);
      var rest := KnownDecoded(reg, m, logs[1..], reading, numbered);
      if Lookup(m, l).None? && rest.Ok? {
        assert [] + rest.value == rest.value;
      }
    }
  }

  /** `logDecoder` keeps, in order, the logs whose first topic is the topic
      of an event of the interface description, each decoded by that event
      (the last one with that topic); it fails exactly when one of them
      fails to decode. */
  lemma LogDecoderKeepsKnown(reg: Registry, hash: Hash, abi: seq<AbiItem>, logs: seq<Log>, reading: Reading, numbered: bool)
    ensures var m := EventMap(hash, abi);
      var r, ks := LogDecoder(reg, hash, abi, logs, reading, numbered), Known(m, logs);
      && (forall k :: 0 <= k < |ks| ==> exists j :: 0 <= j < |abi| && abi[j].kind == "event" && EventTopic(hash, abi[j]) == ks[k].topics[0])
      && (r.Ok? <==> forall k :: 0 <= k < |ks| ==> DecodeKnown(reg, m, ks[k], reading, numbered).Ok?)
      && (r.Ok? ==> |r.value| == |ks| && forall k :: 0 <= k < |ks| ==> r.value[k] == DecodeKnown(reg, m, ks[k], reading, numbered).value)
  {
    var m := EventMap(hash, abi);
    var ks := Known(m, logs);
    DecodeLogsKeepsKnown(reg, hash, m, logs, reading, numbered);
    AllKnownDecoded(reg, m, ks, reading, numbered);
    forall k | 0 <= k < |ks|
      ensures exists j :: 0 <= j < |abi| && abi[j].kind == "event" && EventTopic(hash, abi[j]) == ks[k].topics[0]
    {
      var item := m[ks[k].topics[0]];
      EventMapItems(hash, abi, ks[k].topics[0]);
      var j :| 0 <= j < |abi| && abi[j] == item;
      assert abi[j].kind == "event" && EventTopic(hash, abi[j]) == ks[k].topics[0];
    }
  }
}
