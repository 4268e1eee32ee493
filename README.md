# qtum-ethjs-abi: the parameter layout engine in Dafny

This project models the core of `src/index.js` in qtum-ethjs-abi, a library
that encodes contract calls into the contract ABI's binary wire format and
decodes return data and event logs from it.

**The layout.** The encoded buffer has a *head* and a *tail*.
- The head holds one 32-byte-aligned slot per parameter.
- A *static* parameter's encoding sits in its head slot, zero-padded to 32 bytes.
- A *dynamic* parameter's head slot holds a 32-byte big-endian word: the absolute offset of its body.
- The body itself sits in the tail, also padded.

**Encoding.** `encodeParams` builds this buffer in three loops:
1. each value is encoded by its type's coder;
2. the head size (`staticSize`) and the tail size (`dynamicSize`) are summed;
3. a head cursor and a tail cursor walk a zero-filled buffer and copy the parts in.

**Decoding.** `decodeParams` walks the head with one cursor. Each value is stored in a `Result`:
- by position, when numbered entries are wanted;
- by name, when it has a non-empty name.

**The facade functions.**
- `encodeMethod` prefixes the parameters with the 4-byte selector: the first 4 bytes of the keccak-256 hash of the signature `name(type1,type2,...)`.
- `eventSignature` is the whole hash of that signature, the topic that marks an event's logs.
- `decodeMethod` decodes return data by the method's outputs.
- `decodeEvent` decodes an event:
  - its non-indexed inputs from the log's data;
  - its indexed inputs from the log's topics;
  - numbered aliases for every input;
  - a `type` entry set to the event's name.
- `decodeLogItem` decodes a log only when its first topic is the event's topic.
- `logDecoder` keeps the logs whose first topic is the topic of some event in an interface description, in order.

**How the model is built.**
- **Coders.** A coder (`getParamCoder(type)`) is a value of the datatype `Coders.Coder`: a `dynamic` flag, an encoder that may refuse a value, and a decoder that may fail. The registry of coders is a parameter.
- **Lawful coders.** The round-trip results require every coder to decode what it encodes (`Coders.LawfulRegistry`). The sample coders `uint256`, `bool` and `bytes` are proved to meet that requirement.
- **Hash.** keccak-256 is a parameter `hash: string -> Digest`.
- **Imperative code.** `encodeParams`, `decodeParams` and `decodeEvent` change state step by step, so they are methods:
  - `Encoder.EncodeParams` fills an `array<byte>`;
  - `Decoder.DecodeParams` fills a `Results.Result` object;
  - `Events.DecodeEvent` fills a `Results.Result` object.
  
  Each method is proved equal to a specification function. The properties are proved about those functions.
- **Result objects.** `Result` and its iterator are classes with mutable fields.

**Where the code and the log layout disagree.** Section "Events" of the Solidity contract ABI specification puts the `k`-th indexed argument of an event in the topic right after the event's own, counting only the indexed arguments. The code (`src/index.js:202-209`) counts *all* inputs. The model follows the code and keeps the corrected reading beside it:
- `Events.DecodeEventAsWritten` follows the code, and `Events.DecodeEvent` and `Events.DecodeTopics` are proved against it.
- `Events.DecodeEventSpec` is the corrected reading.
- The log functions (`Logs.DecodeLogItem`, `Logs.LogDecoder` and the lemmas about them) take a `Reading` (`AsWritten` or `Ranked`) and hold for both; with `AsWritten` they are the code's behaviour.

See "## Findings".

## Model

| member | source | states |
|---|---|---|
| Bytes.Zeros | src/index.js:91 | a freshly allocated buffer of `n` bytes holds `n` zeros |
| Bytes.Align32 | src/index.js:76-78 | `alignSize(n)` is at least `n` and less than `n + 32` |
| Bytes.AlignSizeIsLeastMultiple | src/index.js:76-78 | `alignSize(n)` is a multiple of 32, and no multiple of 32 that holds `n` bytes is smaller |
| Bytes.Padded | src/index.js:98-102 | a copied part lies in the buffer as its bytes followed by zeros, up to its aligned size |
| Bytes.Word | src/index.js:95 | `uint256Coder.encode(offset)` is one 32-byte word |
| Bytes.ReadWord | src/index.js:138 | reading the offset word succeeds exactly when 32 bytes remain; the result is below 2^256 |
| Bytes.BigEndianRoundTrip | src/index.js:95 | a number below 256^k, written as k big-endian bytes, reads back as itself |
| Bytes.WordRoundTrip | src/index.js:95-99 | an offset word written at a position reads back as the offset it was written from |
| Bytes.Splice | src/index.js:95-101 | `Buffer.copy` into a buffer keeps the buffer's length |
| Coders.CoreRegistryLawful | src/index.js:72-73 | the sample registry (`uint256`, `bool`, `bytes`) satisfies both coder laws: a dynamic coder never yields empty bytes (which `Encoder.EncodedOffsetsStrict` needs), and every coder decodes what it encodes |
| Coders.CoreRegistry | src/index.js:12-20 | a type string has a coder exactly when it is `uint256`, `bool` or `bytes`; only `bytes` is dynamic |
| Layout.Slot | src/index.js:94-102 | a part's head slot is 32 bytes for a dynamic part and its aligned size for a static one |
| Layout.Body | src/index.js:98-99 | a dynamic part adds its aligned size to the tail; a static part adds nothing |
| Layout.Head | src/index.js:93-104 | the head holds `staticSize` bytes |
| Layout.Tail | src/index.js:93-104 | the tail holds `dynamicSize` bytes |
| Layout.Encoded | src/index.js:90-91 | the buffer holds `staticSize + dynamicSize` bytes |
| Layout.SizesConcat | src/index.js:80-88 | both size sums split over a concatenation of parts |
| Layout.SizesAligned | src/index.js:80-88 | `staticSize` and `dynamicSize` are multiples of 32 |
| Layout.EncodedAligned | src/index.js:90-91 | the encoded length is a multiple of 32 |
| Layout.CursorsAdvance | src/index.js:93-104 | for each part, the head cursor advances by the slot size, and the tail cursor by the aligned size of a dynamic body |
| Offsets.SlotInHead | src/index.js:93-104 | part `i`'s slot lies in the buffer at its head offset: padded bytes for a static part, its offset word for a dynamic one |
| Offsets.BodyInTail | src/index.js:98-99 | a dynamic part's padded body lies at `staticSize` plus the tail used by earlier parts |
| Offsets.StaticPartAt | src/index.js:101-102 | a static part's padded encoding is found at its head offset |
| Offsets.DynamicPartAt | src/index.js:95-99 | a dynamic part's head slot holds the word of its tail offset, and its padded encoding lies at that offset inside the buffer |
| Offsets.NoDynamicNoTail | src/index.js:80-88 | with no dynamic part, `dynamicSize` is 0 |
| Offsets.TailOffsetsSplit | src/index.js:99 | between two parts, the tail cursor advances by the bodies of the parts between them |
| Offsets.FirstOffset | src/index.js:90 | the first dynamic part's offset word is `staticSize` |
| Offsets.NextOffset | src/index.js:95-99 | each next dynamic offset is the previous one plus the aligned size of the previous dynamic body |
| Offsets.OffsetsOrdered | src/index.js:90-104 | dynamic offsets point into the tail; each body ends before the next one starts and inside the buffer; with non-empty bodies the offsets strictly increase |
| Encoder.Parts | src/index.js:69-74 | the parts exist exactly when every type has a coder that accepts its value; each part is its coder's `dynamic` flag and encoding; otherwise the error is the first refusal's |
| Encoder.WrittenHead | src/index.js:93-104 | the slots written for the first `k` parts take the head up to the `k`-th head offset |
| Encoder.WrittenTail | src/index.js:93-104 | the bodies written for the first `k` parts take the tail up to the `k`-th tail offset |
| Encoder.Written | src/index.js:90-104 | the buffer keeps its allocated length throughout the walk |
| Encoder.WrittenNothing | src/index.js:91 | before the walk, the buffer is all zeros |
| Encoder.WrittenAll | src/index.js:93-104 | after the walk, the buffer is the head/tail layout |
| Encoder.WrittenNext | src/index.js:93-104 | writing part `k` appends its slot to the written head and its body to the written tail, each within its region |
| Encoder.WriteStatic | src/index.js:101-102 | copying a static part at the head cursor writes its slot and changes nothing else |
| Encoder.HalfWritten | src/index.js:95-96 | after the offset word is written, the buffer keeps its length |
| Encoder.WriteOffsetWord | src/index.js:95-96 | copying the offset word at the head cursor writes the slot and changes nothing else |
| Encoder.WriteBody | src/index.js:98-99 | copying a dynamic body at the tail cursor writes it and changes nothing else |
| Encoder.EncodedOffsetsStrict | src/index.js:90-104 | with lawful coders, the offset words of an encoding's dynamic parts strictly increase, since no dynamic body is empty |
| Encoder.EncodeParamsSpec | src/index.js:64-104 | an arity error arises exactly when the counts differ; success happens exactly when the counts agree and every value is encodable; the output length is a multiple of 32 |
| Encoder.CopyInto | src/index.js:95-101 | `Buffer.copy` writes the source bytes at the offset and leaves every other byte |
| Encoder.EncodeParts | src/index.js:69-74 | the first loop builds the parts, or stops at the first unknown type or refused value |
| Encoder.Sizes | src/index.js:80-88 | the second loop yields `staticSize` and `dynamicSize` as the stated sums |
| Encoder.WriteParts | src/index.js:90-104 | the third loop fills the zeroed buffer with the layout; the head cursor ends at `staticSize` and the tail cursor at the end of the buffer |
| Encoder.EncodeParams | src/index.js:64-111 | `encodeParams` returns the bytes of the specification function, including its errors |
| Results.Snapshot.Get | src/index.js:48 | `this[i]` is the entry stored at position `i`, or `undefined` |
| Results.Snapshot.Size | src/index.js:41 | the iterator's size is `length` when it is set, and 0 otherwise |
| Results.Fresh | src/index.js:31-37 | a new `Result` has no entries; `length` is set exactly when the size is given and non-zero |
| Results.Spread | src/index.js:40-57 | iterating a result yields one entry per index below its size, each `this[i]` |
| Results.Result.constructor | src/index.js:31-37 | a new `Result` is `Fresh(size)` |
| Results.Result.Iterator | src/index.js:40-44 | the iterator fixes its size when it is made and starts its counter at 0 |
| Results.ResultIterator.constructor | src/index.js:41-43 | the iterator remembers its result and size, with the counter at 0 |
| Results.ResultIterator.Next | src/index.js:45-55 | `next()` is done exactly when the counter has passed `size - 1`; otherwise it yields `this[i]`; the counter always advances |
| Results.SpreadResult | src/index.js:39-57 | calling `next()` until done yields exactly `Spread` of the result |
| Decoder.DecodeOne | src/index.js:135-144 | an unknown type is an error; a dynamic type is decoded at the offset its head word holds and moves the cursor 32 bytes; a static one is decoded at the cursor |
| Decoder.DecodeWalk | src/index.js:133-153 | the walk decodes at most one value per type, and decodes all of them exactly when no step fails |
| Decoder.DecodeParamsSpec | src/index.js:123-155 | `decodeParams` yields a value for every type exactly when no step fails |
| Decoder.StoredNext | src/index.js:146-152 | storing a value sets its position (if numbered) and its name (if truthy), and nothing else |
| Decoder.NumberedAt | src/index.js:146-148 | every decoded value sits at its position |
| Decoder.NumberedBeyond | src/index.js:146-148 | positions past the decoded values keep what they held |
| Decoder.NamedAt | src/index.js:150-152 | a named value is stored under its name, unless a later value has the same name |
| Decoder.NumberedAndNamedAgree | src/index.js:146-152 | the numbered entry equals the named entry for every value whose name no later value reuses |
| Decoder.DecodeAt | src/index.js:135-144 | the loop body returns the decoded value and the cursor advance of the specification step |
| Decoder.StoreDecoded | src/index.js:146-152 | the stores change the `Result` to the next stored state |
| Decoder.DecodeParams | src/index.js:123-155 | `decodeParams` leaves the `Result` holding exactly the entries of the values decoded, and returns the error that stopped the walk |
| Decoder.DecodesStatic | src/index.js:141-143 | a static encoding in the buffer decodes back to its value, and the cursor moves by its aligned size |
| Decoder.DecodesDynamic | src/index.js:137-140 | a dynamic value is decoded from the offset its head word holds, and the cursor moves 32 bytes |
| Decoder.DecodesPart | src/index.js:134-144 | part `i` of an encoding decodes at its head offset as its value, and moves the cursor to the next head offset |
| Decoder.WalkDecodes | src/index.js:133-153 | a walk whose every step decodes the next value decodes them all |
| Decoder.PartsDecode | src/index.js:93-104 | every part of an encoding decodes as the value it came from |
| Decoder.DecodeEncodeRoundTrip | src/index.js:64-155 | `decodeParams(types, encodeParams(types, values))` yields `values` in order, for lawful coders and buffers below 2^256 bytes |
| Interface.Types | src/index.js:159 | `getKeys(inputs, 'type')` is the inputs' types, in order |
| Interface.Names | src/index.js:174 | `getKeys(outputs, 'name', true)` is the names, in order, with a missing name as empty |
| Interface.Signature | src/index.js:158-159 | the signature starts with the name and `(` and ends with `)`; what lies between is the comma-joined type list (see `Interface.SignatureRoundTrip`) |
| Interface.SignatureRoundTrip | src/index.js:158-159 | the signature reads back as the name and types it was built from, by `Interface.ParseSignature` (with `Interface.IndexOf`), the inverse this lemma is stated with; the source itself never parses a signature |
| Interface.SignatureInjective | src/index.js:158-159 | two items share a signature only when they share the name and the type list |
| Interface.Selector | src/index.js:158-163 | the selector is 4 bytes |
| Interface.EventTopic | src/index.js:185-189 | an event's topic (`eventSignature`) is the whole 32-byte hash of its signature; its first 4 bytes are the selector `encodeSignature` gives |
| Facade.EncodeMethod | src/index.js:166-170 | `encodeMethod` fails on an arity mismatch exactly when the counts differ, and succeeds exactly when `encodeParams` does; the call is the selector followed by exactly the bytes `encodeParams` returns, 4 bytes plus a multiple of 32 |
| Facade.MethodCallRoundTrip | src/index.js:158-170 | a call starts with the first 4 bytes of the signature's hash, and its remainder decodes back to the values |
| Facade.EncodeEvent | src/index.js:181-183 | `encodeEvent` fails on arity exactly as `encodeMethod` does, and starts with the first 4 bytes of the event's topic |
| Facade.DecodeMethod | src/index.js:173-178 | `decodeMethod` fills a new `Result` with no length, with numbered and named entries of the decoded outputs |
| Facade.ReturnDataRoundTrip | src/index.js:173-178 | return data encoded from `vs` decodes to `vs` at positions 0, 1, ...; iterating the result yields nothing, since it has no length |
| Events.NonIndexed | src/index.js:193 | the filtered inputs are non-indexed, and there are no more of them than inputs |
| Events.NonIndexedPositions | src/index.js:193 | the filter keeps every non-indexed input in order: there are as many as inputs minus indexed inputs, and input `j` sits at `j` minus the indexed inputs before it |
| Events.TopicOffset | src/index.js:200 | the topic offset is 0 exactly for an anonymous event |
| Events.EventData | src/index.js:193-199 | the data pass yields a `Result` sized by all the inputs, with no numbered entries |
| Events.TopicStep | src/index.js:205-209 | a non-indexed input changes nothing; an indexed one needs its topic and its coder, and sets only its name to the decoded topic |
| Events.Alias | src/index.js:211-216 | `defineProperty(event, i, …)` makes position `i` hold the named entry (or nothing) and leaves every other entry |
| Events.TopicsPass | src/index.js:202-217 | the `inputs.map` pass keeps the result's length |
| Events.DecodeEventBy | src/index.js:192-222 | a decoded event keeps the size of all its inputs, and holds `type` set to the event's name |
| Events.DecodeEventAsWritten | src/index.js:192-222 | `decodeEvent` as written: a decoded event had a topic at `i + topicOffset` for every indexed input `i`, counting all inputs |
| Events.DecodeEventSpec | src/index.js:192-222 | `decodeEvent` with the corrected topic index: a decoded event had a topic at `topicOffset` plus the rank of every indexed input among the indexed ones |
| Events.PlannedTopicsPresent | src/index.js:205-209 | a decoded event had, for every indexed input, the topic its reading names |
| Events.PassKeepsName | src/index.js:202-217 | callbacks whose indexed inputs do not carry a name leave the entry under it alone |
| Events.PassKeepsIndex | src/index.js:211-216 | callbacks after input `i` leave position `i` alone |
| Events.DecodeTopic | src/index.js:205-216 | one callback on the `Result` does what the specification step says, including its errors |
| Events.DecodeTopics | src/index.js:202-217 | the pass over the `Result`, reading input `i` from `topics[i + topicOffset]`, fails exactly when the as-written specification pass fails, with the same error; otherwise it leaves that pass's state |
| Events.DecodeEvent | src/index.js:192-222 | `decodeEvent` succeeds exactly when `DecodeEventAsWritten` does, with the same error; otherwise it returns a new `Result` in that function's state |
| Events.TopicsPresent | src/index.js:205-208 | in a decoded event, every indexed input had the topic the plan names for it, and the topic decoded |
| Events.AsWrittenTopicsPresent | src/index.js:200-208 | as written, indexed input `i` read `topics[i + (anonymous ? 0 : 1)]`, with `i` counting all inputs |
| Events.IndexedInputValue | src/index.js:205-216 | an indexed input's entry is its decoded topic; with numbered entries, position `i` holds the same value |
| Events.NumberedAliasesNamed | src/index.js:211-216 | with numbered entries, position `i` and input `i`'s name hold the same entry, or neither holds one |
| Events.NonIndexedInputValue | src/index.js:193-199 | a non-indexed input's entry is the value the data pass decoded for it |
| Events.IndexedBeforeGrows | src/index.js:202-209 | the count of indexed inputs grows with the prefix, and strictly past an indexed input |
| Events.RankedTopicsStep | src/index.js:200-206 | the corrected topic index starts at the offset and moves on by one past each indexed input |
| Events.RankedTopicsFit | src/index.js:200-206 | the corrected plan reads indexed inputs from distinct topics, in order, all below the offset plus the number of indexed inputs |
| Events.AsWrittenMissesTopic | src/index.js:200-209 | as written, `E(uint256 a, uint256 indexed b)` looks for `b` in `topics[2]` and fails on a log that carries `b` in `topics[1]` |
| Events.RankedReadsSample | src/index.js:200-209 | with the corrected index, the same log decodes to `a = x` and `b = y` |
| Logs.Matches | src/index.js:226 | a log matches only an event that exists, and then its first topic is 32 bytes and begins with the event's selector |
| Logs.DecodeLogItem | src/index.js:225-229 | `decodeLogItem` yields nothing exactly when there is no event or `topics[0]` is not its topic; otherwise it yields the event decoded under the chosen reading (as written, `decodeEvent`), or its error |
| Logs.EventMap | src/index.js:235-238 | the event map holds only event items, each under its own topic, and every event item's topic is a key |
| Logs.EventMapItems | src/index.js:235-238 | every item in the map comes from the interface description |
| Logs.EventMapLast | src/index.js:236-237 | an event whose topic no later event shares is the one the map holds |
| Logs.Lookup | src/index.js:240 | `eventMap[log.topics[0]]` is found exactly when the log has a first topic that the map knows |
| Logs.DecodeLogs | src/index.js:240 | the decoded logs, under either reading, are no more than the logs |
| Logs.LogDecoder | src/index.js:234-242 | `logDecoder(abi)(logs)`, under either reading, yields no more entries than logs |
| Logs.LogItemOfKnown | src/index.js:225-229 | for a log the map does not know, `decodeLogItem` yields nothing; for a known log, it yields that event's decoding under the chosen reading |
| Logs.DecodeLogsKeepsKnown | src/index.js:240 | under either reading, mapping and filtering the logs is decoding just the known ones |
| Logs.LogDecoderKeepsKnown | src/index.js:234-242 | `logDecoder` keeps, in order, the logs whose first topic is some event's topic, each decoded by the last such event under the chosen reading; it fails exactly when one of them fails |

## Findings

| source | as written | input that shows it | evidently intended | confidence | as-written member | corrected member |
|---|---|---|---|---|---|---|
| src/index.js:202-209 | indexed input `i` reads `topics[i + topicOffset]`, with `i` counting every input, indexed or not | event `E(uint256 a, uint256 indexed b)` with a log whose data is the word of `x` and whose topics are `[topic(E), word(y)]`: the code asks for `topics[2]`, which the log does not have | the `k`-th indexed input reads `topics[topicOffset + k]`, as in the Solidity contract ABI specification (section "Events": topics after the event's own hold the indexed arguments in order) | high; not executed | Events.AsWrittenMissesTopic | Events.RankedTopicsFit |

`Events.DecodeEventAsWritten`, `Events.AsWrittenTopicsPresent`, `Events.DecodeTopics` and `Events.DecodeEvent` describe the code as written. The corrected behaviour:
- `Events.DecodeEventSpec` is the corrected decoding; the log functions decode with it under the reading `Ranked`.
- `Events.RankedReadsSample` proves that the corrected decoding reads the sample log correctly.

## Left out

- Hex: hexadecimal conversion (`toHexString`, `toHexStringNoPrefix`, `hexOrBuffer`, `hexStringToBuffer`) is not modelled. Buffers and topics are byte sequences, and `noHexPrefix` only changes the text form. So `decodeLogItem`'s `===` on hex strings is equality of the bytes, and the letter case of the hex digits is ignored.
- Hash: keccak-256 is the parameter `hash`. `Events.AsWrittenMissesTopic` and the other lemmas hold for any hash function.
- Coders.CoreRegistry: resolves only `uint256`, `bool` and `bytes`; `getParamCoder` also resolves `address`, `string`, fixed-size bytes, arrays and the other integer widths, which are left out.
- Coders: the coders live in `src/utils`, which is not part of this model. A coder is only its interface (`dynamic`, `encode`, `decode`). Arrays, `string`, `address`, fixed-size bytes and the integer widths other than `uint256` are left out. The `uint256`, `bool` and `bytes` coders are stand-ins that show the coder laws can be met.
- Thrown errors become `Err` values, and which exception the source throws is not modelled:
  - an unknown type becomes `UnsupportedType`;
  - a refused value becomes `InvalidValue`;
  - reading past the end becomes `Truncated`;
  - `hexStringToBuffer(undefined)` for a missing topic becomes `MissingTopic`.
- Decoder.DecodeOne: reads an offset word of any size. The source converts it with BigNumber `toNumber()`, which is exact only below 2^53.
- Bytes.Align32: `alignSize` is computed with `Math.ceil` in floating point. The model uses integer ceiling, which agrees for lengths below 2^53.
- Encoder.CopyInto: requires the copy to fit the buffer, and every copy the walk makes does. `Buffer.copy` would truncate an oversized copy silently.
- Buffer allocation: `new Buffer(n)` is taken to be zero-filled.
- Argument shifting: the `arguments.length < 3` shift in `decodeParams` is left out. Every caller in the module passes names, types and data.
- Property mechanics: `Object.defineProperty` and `Symbol.iterator` are not modelled as such.
  - The non-enumerable, read-only attributes of `length` and of the event's numbered aliases are not kept.
  - An alias of a missing name removes the position. The source defines it as `undefined`, which reads the same.
- Results.Snapshot: positions and names are kept in separate maps. So an input named like a number (`"0"`), or named `length`, does not collide with a position or with `length` as it would on a JavaScript object.
- Input names: a missing name is modelled as the empty string. The source reads it as `undefined`, and stores an indexed input with no name under the key `"undefined"`.
- Events.IndexedInputValue: requires that no later indexed input reuses the name and that the name is not `type`. Otherwise a later write or the `type` entry replaces the value.
- Events.NumberedAliasesNamed: the alias is the named entry at the time `defineProperty` runs, so a later write to the same name or to `type` breaks the agreement. The lemma excludes those names.
- Encoder.EncodeParamsSpec: only a fixed set of errors is modelled; a refused value is `InvalidValue`, whatever the coder would throw.
- Decoder.DecodeOne: an exception a coder raises while decoding is whatever `AbiError` its `decode` returns.
- Decoder.DecodeEncodeRoundTrip: requires lawful coders and a buffer shorter than 2^256 bytes. The source promises nothing beyond that, since an offset word cannot hold a larger offset.
