/** Interface descriptions (the ABI items a contract publishes), the textual
    signature `name(type1,type2,...)` built from them, and the selector and
    topic derived from its hash. The hash (keccak-256) is a parameter. */
module Interface {
  import opened Outcomes
  import opened Bytes

  /** One declared parameter; a missing name is the empty string. */
  datatype Input = Input(name: string, typ: string, indexed: bool)

  /** One ABI item: `kind` is its `type` field ("function", "event", ...). */
  datatype AbiItem = AbiItem(kind: string, name: string, inputs: seq<Input>, outputs: seq<Input>, anonymous: bool)

  /** A 32-byte hash output. */
  type Digest = s: seq<byte> | |s| == 32 witness Zeros(32)

  /** The hash of a signature string. */
  type Hash = string -> Digest

  /** `getKeys(params, 'type')`. */
  function Types(ps: seq<Input>): (r: seq<string>)
    ensures |r| == |ps| && forall i :: 0 <= i < |ps| ==> r[i] == ps[i].typ
  {
    seq(|ps|, i requires 0 <= i < |ps| => ps[i].typ)
  }

  /** `getKeys(params, 'name', true)`: a missing name stays empty. */
  function Names(ps: seq<Input>): (r: seq<string>)
    ensures |r| == |ps| && forall i :: 0 <= i < |ps| ==> r[i] == ps[i].name
  {
    seq(|ps|, i requires 0 <= i < |ps| => ps[i].name)
  }

  /** `types.join(',')`. */
  function Join(ts: seq<string>): string
  {
    if |ts| == 0 then ""
    else if |ts| == 1 then ts[0]
    else ts[0] + "," + Join(ts[1..])
  }

  /** The comma-separated fields of `s`; always at least one. */
  function Fields(s: string): (r: seq<string>)
    ensures |r| >= 1
  {
    if |s| == 0 then [""]
    else
      var rest := Fields(s[1..]);
      if s[0] == ',' then [""] + rest else [[s[0]] + rest[0]] + rest[1..]
  }

  /** The type list of a signature's parentheses: nothing for `()`. */
  function Split(s: string): seq<string>
  {
    if |s| == 0 then [] else Fields(s)
  }

  /** A type string that can sit in a signature's list. */
  predicate Listable(t: string)
  {
    |t| > 0 && ',' !in t
  }

  /** `${name}(${types.join(',')})`. */
  function Signature(name: string, types: seq<string>): (sig: string)
    ensures |sig| >= |name| + 2 && sig[..|name|] == name && sig[|name|] == '(' && sig[|sig| - 1] == ')'
  {
    name + "(" + Join(types) + ")"
  }

  /** The index of the first `c` in `s`, or `|s|` when there is none. */
  function IndexOf(s: string, c: char): (r: nat)
    ensures r <= |s|
    ensures r < |s| ==> s[r] == c
    ensures forall k :: 0 <= k < r ==> s[k] != c
  {
    if |s| == 0 then 0 else if s[0] == c then 0 else 1 + IndexOf(s[1..], c)
  }

  /** Reads a signature back into its name (up to the first parenthesis) and
      its type list (between that parenthesis and the final one). */
  function ParseSignature(sig: string): (r: Option<(string, seq<string>)>)
    ensures r.Some? ==> '(' !in r.value.0
  {
    var p := IndexOf(sig, '(');
    if p + 2 <= |sig| && sig[|sig| - 1] == ')' then
      assert forall k :: 0 <= k < p ==> sig[..p][k] == sig[k];
      Some((sig[..p], Split(sig[p + 1..|sig| - 1])))
    else None
  }

  lemma {:induction false} FieldsOfOne(t: string)
    requires ',' !in t
    ensures Fields(t) == [t]
  {
    if |t| > 0 {
      FieldsOfOne(t[1..]);
      assert [t[0]] + t[1..] == t;
    }
  }

  lemma {:induction false} FieldsOfMore(t: string, rest: string)
    requires ',' !in t
    ensures Fields(t + "," + rest) == [t] + Fields(rest)
  {
    if |t| == 0 {
      assert t + "," + rest == [','] + rest;
      assert ([','] + rest)[1..] == rest;
    } else {
      var s := t + "," + rest;
      assert s[1..] == t[1..] + "," + rest;
      FieldsOfMore(t[1..], rest);
      assert [t[0]] + t[1..] == t;
    }
  }

  /** Splitting a joined list of comma-free, non-empty types gives the list
      back. */
  lemma {:induction false} SplitJoin(ts: seq<string>)
    requires forall i :: 0 <= i < |ts| ==> Listable(ts[i])
    ensures Split(Join(ts)) == ts
  {
    if |ts| == 1 {
      FieldsOfOne(ts[0]);
    } else if |ts| > 1 {
      SplitJoin(ts[1..]);
      FieldsOfMore(ts[0], Join(ts[1..]));
      assert |Join(ts[1..])| > 0 by { JoinNonEmpty(ts[1..]); }
      assert [ts[0]] + ts[1..] == ts;
    }
  }

  lemma {:induction false} JoinNonEmpty(ts: seq<string>)
    requires |ts| > 0 && forall i :: 0 <= i < |ts| ==> Listable(ts[i])
    ensures |Join(ts)| >= |ts[0]| > 0
  {
  }

  /** A signature whose name holds no parenthesis and whose types are
      comma-free and non-empty reads back as that name and those types. */
  lemma SignatureRoundTrip(name: string, types: seq<string>)
    requires '(' !in name
    requires forall i :: 0 <= i < |types| ==> Listable(types[i])
    ensures ParseSignature(Signature(name, types)) == Some((name, types))
  {
    var sig := Signature(name, types);
    var p := IndexOf(sig, '(');
    assert sig[|name|] == '(';
    assert forall k :: 0 <= k < |name| ==> sig[k] == name[k];
    assert p == |name|;
    assert sig[p + 1..|sig| - 1] == Join(types);
    SplitJoin(types);
  }

  /** Two such items share a signature only when they share the name and
      the type list. */
  lemma SignatureInjective(n1: string, t1: seq<string>, n2: string, t2: seq<string>)
    requires '(' !in n1 && '(' !in n2
    requires forall i :: 0 <= i < |t1| ==> Listable(t1[i])
    requires forall i :: 0 <= i < |t2| ==> Listable(t2[i])
    requires Signature(n1, t1) == Signature(n2, t2)
    ensures n1 == n2 && t1 == t2
  {
    SignatureRoundTrip(n1, t1);
    SignatureRoundTrip(n2, t2);
  }

  /** `encodeSignature(method)`: the first 4 bytes of the signature's hash. */
  function Selector(hash: Hash, item: AbiItem): (r: seq<byte>)
    ensures |r| == 4
  {
    hash(Signature(item.name, Types(item.inputs)))[..4]
  }

  /** `eventSignature(event)`: the whole hash of the signature, whose
      first 4 bytes are the selector `encodeSignature` gives. */
  function EventTopic(hash: Hash, item: AbiItem): (r: Digest)
    ensures r[..4] == Selector(hash, item)
  {
    hash(Signature(item.name, Types(item.inputs)))
  }
}
