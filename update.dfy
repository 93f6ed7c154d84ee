/** The body builder of the update query, Update.Pack in update.go.

    The MessagePack encoder and the body buffer it writes to are modelled as
    an append-only log of tokens: a map header, an array header, a uint key,
    one encoded value, or raw bytes. The name-resolution collaborators of
    packData (writeSpace, writeIndex) are parameters that may fail, and the
    encoder fails on a value it has no encoding for. The codes and keys Pack
    uses (UpdateRequest, BadRequest, KeyKey, KeyTuple) are defined outside the
    core and are a parameter (`Constants`) too. */
module UpdateQuery {
  import opened Octets

  /** A Go value handed to the encoder as an `interface{}`; `Unsupported`
      stands for a value of a type the encoder has no encoding for (a channel
      or a function, say), on which Encode returns an error. */
  datatype Value = Nil | Integer(i: int) | Text(s: string) | Blob(bytes: seq<Byte>) | Unsupported

  /** The values encoder.Encode accepts. */
  predicate Encodable(v: Value)
  {
    !v.Unsupported?
  }

  /** An update operator, known by the tuple its AsTuple returns. */
  datatype Operator = Operator(asTuple: seq<Value>)

  /** The Update query: target space, index, a single key or a key tuple (a
      nil slice is None), and the operators. */
  datatype Update = Update(space: Value, index: Value, key: Value,
                           keyTuple: Option<seq<Value>>, ops: seq<Operator>)

  /** What one encoder call appends to the body. */
  datatype Token = MapLen(n: nat) | ArrayLen(n: nat) | Uint(k: U32) | Enc(v: Value) | Raw(bytes: seq<Byte>)

  /** The tokens a step of Pack appends, and whether it succeeded. */
  datatype Step = Step(tokens: seq<Token>, ok: bool)

  /** packData's collaborators: writeSpace and writeIndex resolve names and
      append what they resolve to (failing on an unknown name), and
      packedSingleKey is the pre-encoded key of the single-key entry. */
  datatype PackData = PackData(writeSpace: Value -> Step,
                               writeIndex: (Value, Value) -> Step,
                               packedSingleKey: seq<Byte>)

  datatype Constants = Constants(updateRequest: Byte, badRequest: Byte, keyKey: U32, keyTuple: U32)

  // ---------------------------------------------------------------------
  // Specification: the token stream Pack produces

  /** A step that cannot fail. */
  function Emit(ts: seq<Token>): (r: Step)
  {
    Step(ts, true)
  }

  /** Runs b after a, unless a failed. */
  function Then(a: Step, b: Step): (r: Step)
  {
    if a.ok then Step(a.tokens + b.tokens, b.ok) else a
  }

  /** Encodes values in order, stopping at the first one the encoder refuses. */
  function EncodeAll(vs: seq<Value>): (r: Step)
    ensures |r.tokens| <= |vs|
  {
    if vs == [] then Emit([])
    else if !Encodable(vs[0]) then Step([], false)
    else Then(Emit([Enc(vs[0])]), EncodeAll(vs[1..]))
  }

  /** The key entry: the single key wins over the key tuple; neither gives no entry. */
  function KeyEntry(u: Update, data: PackData, c: Constants): (r: Step)
  {
    if u.key != Nil then
      Then(Emit([Raw(data.packedSingleKey)]), EncodeAll([u.key]))
    else if u.keyTuple.Some? then
      Then(Emit([Uint(c.keyKey), ArrayLen(|u.keyTuple.value|)]), EncodeAll(u.keyTuple.value))
    else
      Emit([])
  }

  /** The operators, each an array of its tuple's values. */
  function Operations(ops: seq<Operator>): (r: Step)
  {
    if ops == [] then Emit([])
    else
      Then(Then(Emit([ArrayLen(|ops[0].asTuple|)]), EncodeAll(ops[0].asTuple)),
           Operations(ops[1..]))
  }

  /** The whole body: a map of four entries (space, index, key, operators). */
  function PackBody(u: Update, data: PackData, c: Constants): (body: Step)
  {
    Then(Emit([MapLen(4)]),
    Then(data.writeSpace(u.space),
    Then(data.writeIndex(u.space, u.index),
    KeyAndOperations(u, data, c))))
  }

  /** The last two entries: the key, then (unless it failed) the operators. */
  function KeyAndOperations(u: Update, data: PackData, c: Constants): (r: Step)
  {
    Then(KeyEntry(u, data, c),
    Then(Emit([Uint(c.keyTuple), ArrayLen(|u.ops|)]),
         Operations(u.ops)))
  }

  // ---------------------------------------------------------------------
  // Reference shapes when every value encodes

  /** One Enc token per value, in order. */
  function Encs(vs: seq<Value>): (ts: seq<Token>)
    ensures |ts| == |vs|
  {
    if vs == [] then [] else [Enc(vs[0])] + Encs(vs[1..])
  }

  /** Each operator as its array header followed by its values. */
  function OpsTokens(ops: seq<Operator>): (ts: seq<Token>)
  {
    if ops == [] then [] else [ArrayLen(|ops[0].asTuple|)] + Encs(ops[0].asTuple) + OpsTokens(ops[1..])
  }

  predicate AllEncodable(vs: seq<Value>)
  {
    forall i :: 0 <= i < |vs| ==> Encodable(vs[i])
  }

  predicate OpsEncodable(ops: seq<Operator>)
  {
    forall k :: 0 <= k < |ops| ==> AllEncodable(ops[k].asTuple)
  }

  /** Running two steps in a row does not depend on how they are grouped. */
  lemma ThenAssoc(a: Step, b: Step, c: Step)
    ensures Then(Then(a, b), c) == Then(a, Then(b, c))
  {
    if a.ok && b.ok {
      assert a.tokens + b.tokens + c.tokens == a.tokens + (b.tokens + c.tokens);
    }
  }

  /** Encoding a + b is encoding a, then b. */
  lemma {:induction false} EncodeAllAppend(a: seq<Value>, b: seq<Value>)
    ensures EncodeAll(a + b) == Then(EncodeAll(a), EncodeAll(b))
  {
    if a == [] {
      assert a + b == b;
    } else {
      assert (a + b)[0] == a[0];
      assert (a + b)[1..] == a[1..] + b;
      EncodeAllAppend(a[1..], b);
      if Encodable(a[0]) {
        ThenAssoc(Emit([Enc(a[0])]), EncodeAll(a[1..]), EncodeAll(b));
      }
    }
  }

  /** Packing operators a + b is packing a, then b. */
  lemma {:induction false} OperationsAppend(a: seq<Operator>, b: seq<Operator>)
    ensures Operations(a + b) == Then(Operations(a), Operations(b))
  {
    if a == [] {
      assert a + b == b;
    } else {
      assert (a + b)[0] == a[0];
      assert (a + b)[1..] == a[1..] + b;
      OperationsAppend(a[1..], b);
      var first := Then(Emit([ArrayLen(|a[0].asTuple|)]), EncodeAll(a[0].asTuple));
      ThenAssoc(first, Operations(a[1..]), Operations(b));
    }
  }

  /** Encoding one more value extends the encoding of the values before it. */
  lemma EncodeAllSnoc(vs: seq<Value>, i: nat)
    requires i < |vs|
    ensures EncodeAll(vs[..i + 1])
         == Then(EncodeAll(vs[..i]), if Encodable(vs[i]) then Emit([Enc(vs[i])]) else Step([], false))
  {
    assert vs[..i + 1] == vs[..i] + [vs[i]];
    EncodeAllAppend(vs[..i], [vs[i]]);
    EncodeOne(vs[i]);
  }

  /** Once a prefix of the values fails to encode, the rest adds nothing. */
  lemma EncodeAllPrefixFails(vs: seq<Value>, k: nat)
    requires k <= |vs| && !EncodeAll(vs[..k]).ok
    ensures EncodeAll(vs) == EncodeAll(vs[..k])
  {
    var done, rest := vs[..k], vs[k..];
    EncodeAllAppend(done, rest);
    assert done + rest == vs;
  }

  /** Packing one more operator extends the packing of the operators before it. */
  lemma OperationsSnoc(ops: seq<Operator>, i: nat)
    requires i < |ops|
    ensures Operations(ops[..i + 1])
         == Then(Operations(ops[..i]),
                 Then(Emit([ArrayLen(|ops[i].asTuple|)]), EncodeAll(ops[i].asTuple)))
  {
    assert [ops[i]][1..] == [];
    assert ops[..i + 1] == ops[..i] + [ops[i]];
    OperationsAppend(ops[..i], [ops[i]]);
  }

  /** Once a prefix of the operators fails to pack, the rest adds nothing. */
  lemma OperationsPrefixFails(ops: seq<Operator>, k: nat)
    requires k <= |ops| && !Operations(ops[..k]).ok
    ensures Operations(ops) == Operations(ops[..k])
  {
    var done, rest := ops[..k], ops[k..];
    OperationsAppend(done, rest);
    assert done + rest == ops;
  }

  // ---------------------------------------------------------------------
  // Properties

  /** Encoding succeeds exactly when every value encodes, and then it emits
      one token per value, in order. */
  lemma {:induction false} EncodeAllSucceeds(vs: seq<Value>)
    ensures EncodeAll(vs).ok <==> AllEncodable(vs)
    ensures AllEncodable(vs) ==> EncodeAll(vs) == Step(Encs(vs), true)
  {
    if vs != [] {
      EncodeAllSucceeds(vs[1..]);
      if Encodable(vs[0]) && !AllEncodable(vs) {
        var i :| 0 <= i < |vs| && !Encodable(vs[i]);
        assert !Encodable(vs[1..][i - 1]);
      }
    }
  }

  /** Encoding stops at the first value the encoder refuses: the values
      before it are emitted and nothing after. */
  lemma {:induction false} EncodeAllStops(vs: seq<Value>, k: nat)
    requires k < |vs| && AllEncodable(vs[..k]) && !Encodable(vs[k])
    ensures EncodeAll(vs) == Step(Encs(vs[..k]), false)
  {
    if k > 0 {
      assert vs[1..][..k - 1] == vs[..k][1..];
      assert Encodable(vs[..k][0]);
      EncodeAllStops(vs[1..], k - 1);
    }
  }

  /** With every operator's every value encodable, the operators section is
      each operator's array header followed by its values, operator by operator. */
  lemma {:induction false} OperationsSucceed(ops: seq<Operator>)
    ensures Operations(ops).ok <==> OpsEncodable(ops)
    ensures OpsEncodable(ops) ==> Operations(ops) == Step(OpsTokens(ops), true)
  {
    if ops != [] {
      EncodeAllSucceeds(ops[0].asTuple);
      OperationsSucceed(ops[1..]);
      if !OpsEncodable(ops) && AllEncodable(ops[0].asTuple) {
        var k :| 0 <= k < |ops| && !AllEncodable(ops[k].asTuple);
        assert !AllEncodable(ops[1..][k - 1].asTuple);
      }
    }
  }

  /** The operators section stops inside the first operator i whose tuple does
      not encode: the operators before it are emitted whole, then i's array
      header and what its own encoding emitted, and nothing after. */
  lemma {:induction false} OperationsStop(ops: seq<Operator>, i: nat)
    requires i < |ops| && OpsEncodable(ops[..i])
    requires !AllEncodable(ops[i].asTuple)
    ensures Operations(ops)
         == Step(OpsTokens(ops[..i]) + [ArrayLen(|ops[i].asTuple|)] + EncodeAll(ops[i].asTuple).tokens, false)
  {
    EncodeAllSucceeds(ops[i].asTuple);
    if i > 0 {
      assert ops[1..][..i - 1] == ops[..i][1..];
      assert AllEncodable(ops[..i][0].asTuple);
      EncodeAllSucceeds(ops[0].asTuple);
      OperationsStop(ops[1..], i - 1);
    }
  }

  /** Encoding a single value emits it, or fails with nothing emitted. */
  lemma EncodeOne(v: Value)
    ensures EncodeAll([v]) == (if Encodable(v) then Emit([Enc(v)]) else Step([], false))
  {
    assert [v][1..] == [];
  }

  /** Whatever the fields hold, the first token is a map header of four entries. */
  lemma PackStartsWithMapHeader(u: Update, data: PackData, c: Constants)
    ensures |PackBody(u, data, c).tokens| >= 1
    ensures PackBody(u, data, c).tokens[0] == MapLen(4)
  {
  }

  /** A failed space resolution fails Pack with no index, key or operator tokens. */
  lemma SpaceFailureStops(u: Update, data: PackData, c: Constants)
    requires !data.writeSpace(u.space).ok
    ensures PackBody(u, data, c) == Step([MapLen(4)] + data.writeSpace(u.space).tokens, false)
  {
  }

  /** A failed index resolution fails Pack with no key or operator tokens. */
  lemma IndexFailureStops(u: Update, data: PackData, c: Constants)
    requires data.writeSpace(u.space).ok && !data.writeIndex(u.space, u.index).ok
    ensures PackBody(u, data, c)
         == Step([MapLen(4)] + data.writeSpace(u.space).tokens + data.writeIndex(u.space, u.index).tokens, false)
  {
  }

  /** Pack after a successful space and index: the key entry, then, unless
      the key failed to encode, the operators entry. */
  lemma PackAfterIndex(u: Update, data: PackData, c: Constants)
    requires data.writeSpace(u.space).ok && data.writeIndex(u.space, u.index).ok
    ensures var prefix := [MapLen(4)] + data.writeSpace(u.space).tokens + data.writeIndex(u.space, u.index).tokens;
      var key := KeyEntry(u, data, c);
      !key.ok ==> PackBody(u, data, c) == Step(prefix + key.tokens, false)
    ensures var prefix := [MapLen(4)] + data.writeSpace(u.space).tokens + data.writeIndex(u.space, u.index).tokens;
      var key, ops := KeyEntry(u, data, c), Operations(u.ops);
      key.ok ==> PackBody(u, data, c)
                   == Step(prefix + key.tokens + [Uint(c.keyTuple), ArrayLen(|u.ops|)] + ops.tokens, ops.ok)
  {
    var sp, ix := data.writeSpace(u.space), data.writeIndex(u.space, u.index);
    var key, ops := KeyEntry(u, data, c), Operations(u.ops);
    var prefix := [MapLen(4)] + sp.tokens + ix.tokens;
    var rest := KeyAndOperations(u, data, c);
    PackBodyStages(u, data, c);
    assert PackBody(u, data, c) == Step(prefix + rest.tokens, rest.ok);
    if key.ok {
      var tail := [Uint(c.keyTuple), ArrayLen(|u.ops|)] + ops.tokens;
      assert rest == Step(key.tokens + tail, ops.ok);
      assert prefix + (key.tokens + tail) == prefix + key.tokens + [Uint(c.keyTuple), ArrayLen(|u.ops|)] + ops.tokens;
    } else {
      assert rest == key;
    }
  }

  /** A non-nil single key is the raw single-key prefix and the key; the key
      tuple is then ignored altogether. */
  lemma SingleKeyWins(u: Update, data: PackData, c: Constants, other: Option<seq<Value>>)
    requires u.key != Nil
    ensures KeyEntry(u, data, c)
         == (if Encodable(u.key) then Emit([Raw(data.packedSingleKey), Enc(u.key)])
             else Step([Raw(data.packedSingleKey)], false))
    ensures PackBody(u, data, c) == PackBody(u.(keyTuple := other), data, c)
  {
    EncodeOne(u.key);
  }

  /** With a nil key and a key tuple, the entry is KeyKey, an array header of
      the tuple's length, and its elements in order; a tuple element the
      encoder refuses ends the entry there, with the elements before it
      emitted; with neither key nor tuple, there is no entry. */
  lemma KeyTupleEntry(u: Update, data: PackData, c: Constants)
    requires u.key == Nil
    ensures u.keyTuple.None? ==> KeyEntry(u, data, c) == Emit([])
    ensures u.keyTuple.Some? && AllEncodable(u.keyTuple.value) ==>
      KeyEntry(u, data, c)
        == Emit([Uint(c.keyKey), ArrayLen(|u.keyTuple.value|)] + Encs(u.keyTuple.value))
    ensures u.keyTuple.Some? ==>
      forall k :: (0 <= k < |u.keyTuple.value| && AllEncodable(u.keyTuple.value[..k]) && !Encodable(u.keyTuple.value[k])) ==>
      KeyEntry(u, data, c)
        == Step([Uint(c.keyKey), ArrayLen(|u.keyTuple.value|)] + Encs(u.keyTuple.value[..k]), false)
  {
    if u.keyTuple.Some? {
      var kt := u.keyTuple.value;
      EncodeAllSucceeds(kt);
      forall k | 0 <= k < |kt| && AllEncodable(kt[..k]) && !Encodable(kt[k])
        ensures KeyEntry(u, data, c) == Step([Uint(c.keyKey), ArrayLen(|kt|)] + Encs(kt[..k]), false)
      {
        EncodeAllStops(kt, k);
      }
    }
  }

  /** Pack succeeds exactly when both names resolve and every key and operator
      value encodes; the body is then the four entries in order. */
  lemma PackSucceeds(u: Update, data: PackData, c: Constants)
    ensures PackBody(u, data, c).ok
        <==> && data.writeSpace(u.space).ok
             && data.writeIndex(u.space, u.index).ok
             && (u.key != Nil ==> Encodable(u.key))
             && (u.key == Nil && u.keyTuple.Some? ==> AllEncodable(u.keyTuple.value))
             && OpsEncodable(u.ops)
    ensures PackBody(u, data, c).ok ==>
      PackBody(u, data, c).tokens
        == [MapLen(4)] + data.writeSpace(u.space).tokens + data.writeIndex(u.space, u.index).tokens
           + KeyEntry(u, data, c).tokens
           + [Uint(c.keyTuple), ArrayLen(|u.ops|)] + OpsTokens(u.ops)
  {
    OperationsSucceed(u.ops);
    if u.key != Nil {
      SingleKeyWins(u, data, c, u.keyTuple);
    } else {
      KeyTupleEntry(u, data, c);
      if u.keyTuple.Some? {
        EncodeAllSucceeds(u.keyTuple.value);
      }
    }
  }

  // ---------------------------------------------------------------------
  // The imperative builder

  /** The bytes.Buffer Pack writes the body into, as the log of tokens written. */
  class BodyBuffer {
    var tokens: seq<Token>

    constructor ()
      ensures tokens == []
    {
      tokens := [];
    }
  }

  /** encoder.Encode(v): appends v unless the encoder refuses it. */
  method Encode(buf: BodyBuffer, v: Value) returns (ok: bool)
    modifies buf
    ensures ok == Encodable(v)
    ensures buf.tokens == old(buf.tokens) + (if ok then [Enc(v)] else [])
  {
    ok := Encodable(v);
    if ok {
      buf.tokens := buf.tokens + [Enc(v)];
    }
  }

  /** The loops `for _, v := range vs { encoder.Encode(v) }` of Pack: encodes
      values in order and stops at the first one the encoder refuses. */
  method EncodeValues(vs: seq<Value>, buf: BodyBuffer) returns (ok: bool)
    modifies buf
    ensures buf.tokens == old(buf.tokens) + EncodeAll(vs).tokens
    ensures ok == EncodeAll(vs).ok
  {
    ghost var start := buf.tokens;
    var i := 0;
    assert vs[..0] == [];
    while i < |vs|
      invariant 0 <= i <= |vs|
      invariant EncodeAll(vs[..i]).ok
      invariant buf.tokens == start + EncodeAll(vs[..i]).tokens
    {
      ok := Encode(buf, vs[i]);
      EncodeAllSnoc(vs, i);
      if !ok {
        EncodeAllPrefixFails(vs, i + 1);
        return;
      }
      i := i + 1;
    }
    assert vs[..i] == vs;
    return true;
  }

  /** The update-operators entry of Pack: KeyTuple, the number of operators,
      and each operator as an array of its tuple's values. */
  method PackOperations(ops: seq<Operator>, c: Constants, buf: BodyBuffer)
    returns (ok: bool)
    modifies buf
    ensures buf.tokens == old(buf.tokens) + [Uint(c.keyTuple), ArrayLen(|ops|)] + Operations(ops).tokens
    ensures ok == Operations(ops).ok
  {
    buf.tokens := buf.tokens + [Uint(c.keyTuple), ArrayLen(|ops|)];
    ghost var start := buf.tokens;
    var i := 0;
    assert ops[..0] == [];
    while i < |ops|
      invariant 0 <= i <= |ops|
      invariant Operations(ops[..i]).ok
      invariant buf.tokens == start + Operations(ops[..i]).tokens
    {
      var t := ops[i].asTuple;
      ghost var done, values := Operations(ops[..i]), EncodeAll(t);
      buf.tokens := buf.tokens + [ArrayLen(|t|)];
      ok := EncodeValues(t, buf);
      assert buf.tokens == start + (done.tokens + ([ArrayLen(|t|)] + values.tokens));
      OperationsSnoc(ops, i);
      if !ok {
        OperationsPrefixFails(ops, i + 1);
        return;
      }
      i := i + 1;
    }
    assert ops[..i] == ops;
    return true;
  }

  /** The key entry of Pack: the raw single-key prefix and the key, or
      KeyKey and the key tuple as an array, or nothing. */
  method PackKey(u: Update, data: PackData, c: Constants, buf: BodyBuffer)
    returns (ok: bool)
    modifies buf
    ensures buf.tokens == old(buf.tokens) + KeyEntry(u, data, c).tokens
    ensures ok == KeyEntry(u, data, c).ok
  {
    ghost var start := buf.tokens;
    ok := true;
    if u.key != Nil {
      buf.tokens := buf.tokens + [Raw(data.packedSingleKey)];
      ok := Encode(buf, u.key);
      EncodeOne(u.key);
    } else if u.keyTuple.Some? {
      ghost var values := EncodeAll(u.keyTuple.value);
      buf.tokens := buf.tokens + [Uint(c.keyKey), ArrayLen(|u.keyTuple.value|)];
      ok := EncodeValues(u.keyTuple.value, buf);
      assert buf.tokens == start + ([Uint(c.keyKey), ArrayLen(|u.keyTuple.value|)] + values.tokens);
    }
  }

  /** The space and index entries of Pack, each resolved by packData; the
      index is written only when the space resolved. */
  method PackNames(u: Update, data: PackData, buf: BodyBuffer) returns (ok: bool)
    modifies buf
    ensures buf.tokens == old(buf.tokens) + Then(data.writeSpace(u.space), data.writeIndex(u.space, u.index)).tokens
    ensures ok == (data.writeSpace(u.space).ok && data.writeIndex(u.space, u.index).ok)
  {
    var space := data.writeSpace(u.space);
    buf.tokens := buf.tokens + space.tokens;
    if !space.ok {
      return false;
    }
    var index := data.writeIndex(u.space, u.index);
    buf.tokens := buf.tokens + index.tokens;
    return index.ok;
  }

  /** The key and update-operators entries of Pack; the operators are
      written only when the key encoded. */
  method PackEntries(u: Update, data: PackData, c: Constants, buf: BodyBuffer)
    returns (ok: bool)
    modifies buf
    ensures buf.tokens == old(buf.tokens) + KeyAndOperations(u, data, c).tokens
    ensures ok == KeyAndOperations(u, data, c).ok
  {
    ghost var start := buf.tokens;
    ghost var key, opsStep := KeyEntry(u, data, c), Operations(u.ops);
    ok := PackKey(u, data, c, buf);
    if ok {
      ok := PackOperations(u.ops, c, buf);
      assert buf.tokens == start + (key.tokens + ([Uint(c.keyTuple), ArrayLen(|u.ops|)] + opsStep.tokens));
    }
  }

  /** The body as its three stages: the map header, the two names, and the
      last two entries only when both names resolved. */
  lemma PackBodyStages(u: Update, data: PackData, c: Constants)
    ensures var names, rest := Then(data.writeSpace(u.space), data.writeIndex(u.space, u.index)), KeyAndOperations(u, data, c);
      PackBody(u, data, c)
        == if names.ok then Step([MapLen(4)] + names.tokens + rest.tokens, rest.ok)
           else Step([MapLen(4)] + names.tokens, false)
  {
  }

  /** Update.Pack: appends the body to buf and returns UpdateRequest, or stops
      at the first failure and returns BadRequest. Each of the source's early
      returns is the skipping of the stages after it. */
  method Pack(u: Update, data: PackData, c: Constants, buf: BodyBuffer)
    returns (code: Byte, failed: bool)
    modifies buf
    ensures buf.tokens == old(buf.tokens) + PackBody(u, data, c).tokens
    ensures failed == !PackBody(u, data, c).ok
    ensures code == (if failed then c.badRequest else c.updateRequest)
  {
    ghost var start := buf.tokens;
    ghost var names := Then(data.writeSpace(u.space), data.writeIndex(u.space, u.index));
    ghost var rest := KeyAndOperations(u, data, c);
    PackBodyStages(u, data, c);
    buf.tokens := buf.tokens + [MapLen(4)];

    // Space and index
    var ok := PackNames(u, data, buf);
    if ok {
      // Key and update operators
      ok := PackEntries(u, data, c, buf);
      assert buf.tokens == start + ([MapLen(4)] + names.tokens + rest.tokens);
    }
    code, failed := if ok then c.updateRequest else c.badRequest, !ok;
  }
}
