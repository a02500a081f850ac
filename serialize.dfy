/**
  The value persistence bridge: the conversion between interpreter values
  and the five-kind `SerializedValue` schema kept in the key-value store,
  and the two native functions `get` and `set` that read and write that
  store. Stored values are kept as `SerializedValue` directly; their byte
  encoding is not part of this model.
 */
module Serialize {
  import opened Bobascript

  /** The persisted schema: exactly the five storable kinds of `Value`. */
  datatype SerializedValue =
    | Tuple(elems: seq<SerializedValue>)
    | Record(fields: map<string, SerializedValue>)
    | Number(num: F64)
    | Boolean(b: bool)
    | String(str: string)

  /** A value built only from tuples, records, numbers, booleans and strings,
      at every depth. */
  predicate Storable(v: Value) {
    match v
    case Tuple(elems) => forall i | 0 <= i < |elems| :: Storable(elems[i])
    case Record(fields) => forall k | k in fields :: Storable(fields[k])
    case Number(_) => true
    case Boolean(_) => true
    case String(_) => true
    case Other(_) => false
  }

  /** `SerializedValue::try_from(value)`. Tuples and records are converted
      element by element and any failing element makes the whole conversion
      fail; any kind outside the five fails with `OperationNotSupported`. */
  function Encode(v: Value): (r: Result<SerializedValue, RuntimeError>)
    ensures r.Ok? <==> Storable(v)
    ensures r.Err? ==> r.error == OperationNotSupported
  {
    match v
    case Tuple(elems) =>
      (match EncodeAll(elems)
       case Ok(s) => Ok(SerializedValue.Tuple(s))
       case Err(e) => Err(e))
    case Record(fields) =>
      // every failure is the same error, so the order in which the
      // record's entries are visited does not matter
      if forall k | k in fields :: Encode(fields[k]).Ok? then
        Ok(SerializedValue.Record(map k | k in fields :: Encode(fields[k]).value))
      else
        Err(OperationNotSupported)
    case Number(n) => Ok(SerializedValue.Number(n))
    case Boolean(b) => Ok(SerializedValue.Boolean(b))
    case String(s) => Ok(SerializedValue.String(s))
    case Other(_) => Err(OperationNotSupported)
  }

  /** The tuple case of `Encode`. The source converts every element into a
      vector of results and then collects that vector, which stops at its
      first error; the conversion is pure and has one error value, so
      stopping at the first failing element gives the same result. */
  function EncodeAll(vs: seq<Value>): (r: Result<seq<SerializedValue>, RuntimeError>)
    ensures r.Ok? <==> forall i | 0 <= i < |vs| :: Storable(vs[i])
    ensures r.Err? ==> r.error == OperationNotSupported
    ensures r.Ok? ==> |r.value| == |vs| && forall i | 0 <= i < |vs| :: Encode(vs[i]) == Ok(r.value[i])
  {
    if vs == [] then Ok([])
    else
      match Encode(vs[0])
      case Err(e) => Err(e)
      case Ok(head) =>
        match EncodeAll(vs[1..])
        case Err(e) => Err(e)
        case Ok(tail) => Ok([head] + tail)
  }

  /** `SerializedValue::try_into::<Value>()`. The Rust signature is fallible,
      but no branch of it can fail, so it is a total function here. */
  function Decode(s: SerializedValue): (v: Value)
    ensures Storable(v)
  {
    match s
    case Tuple(elems) => Value.Tuple(seq(|elems|, i requires 0 <= i < |elems| => Decode(elems[i])))
    case Record(fields) => Value.Record(map k | k in fields :: Decode(fields[k]))
    case Number(n) => Value.Number(n)
    case Boolean(b) => Value.Boolean(b)
    case String(str) => Value.String(str)
  }

  /** Storing and loading back gives the same value, at every depth. */
  lemma {:induction false} DecodeEncode(v: Value)
    requires Storable(v)
    ensures Encode(v).Ok? && Decode(Encode(v).value) == v
  {
    match v
    case Tuple(elems) =>
      var s := EncodeAll(elems).value;
      forall i | 0 <= i < |elems|
        ensures Decode(s[i]) == elems[i]
      {
        DecodeEncode(elems[i]);
      }
      assert Decode(Encode(v).value).elems == elems;
    case Record(fields) =>
      forall k | k in fields
        ensures Decode(Encode(fields[k]).value) == fields[k]
      {
        DecodeEncode(fields[k]);
      }
      assert Decode(Encode(v).value).fields == fields;
    case Number(_) =>
    case Boolean(_) =>
    case String(_) =>
  }

  /** Loading a stored value and storing it again gives the same stored
      value: the converse round trip is also the identity. */
  lemma {:induction false} EncodeDecodeIdentity(s: SerializedValue)
    ensures Encode(Decode(s)) == Ok(s)
  {
    match s
    case Tuple(elems) =>
      var d := Decode(s).elems;
      forall i | 0 <= i < |elems|
        ensures Encode(d[i]) == Ok(elems[i])
      {
        EncodeDecodeIdentity(elems[i]);
      }
      assert EncodeAll(d).value == elems;
    case Record(fields) =>
      var d := Decode(s).fields;
      forall k | k in fields
        ensures Encode(d[k]) == Ok(fields[k])
      {
        EncodeDecodeIdentity(fields[k]);
      }
      assert Encode(Decode(s)).value.fields == fields;
    case Number(_) =>
    case Boolean(_) =>
    case String(_) =>
  }

  /** A tuple converts to a tuple of the same length whose elements are the
      converted elements, in the same order. */
  lemma EncodeTuple(elems: seq<Value>)
    requires Encode(Value.Tuple(elems)).Ok?
    ensures var r := Encode(Value.Tuple(elems)).value;
      && r.Tuple?
      && |r.elems| == |elems|
      && forall i | 0 <= i < |elems| :: Encode(elems[i]) == Ok(r.elems[i])
  {
  }

  /** A record converts to a record with the same key set whose value under
      each key is the converted value. */
  lemma EncodeRecord(fields: map<string, Value>)
    requires Encode(Value.Record(fields)).Ok?
    ensures var r := Encode(Value.Record(fields)).value;
      && r.Record?
      && r.fields.Keys == fields.Keys
      && forall k | k in fields :: Encode(fields[k]) == Ok(r.fields[k])
  {
  }

  /** Numbers, booleans and strings convert to the same kind with the same
      payload; every other non-container kind fails. */
  lemma EncodeScalar(v: Value)
    requires !v.Tuple? && !v.Record?
    ensures v.Number? ==> Encode(v) == Ok(SerializedValue.Number(v.num))
    ensures v.Boolean? ==> Encode(v) == Ok(SerializedValue.Boolean(v.b))
    ensures v.String? ==> Encode(v) == Ok(SerializedValue.String(v.str))
    ensures v.Other? ==> Encode(v) == Err(OperationNotSupported)
  {
  }

  /** One non-storable element anywhere inside a tuple makes the whole
      conversion fail. */
  lemma EncodeTupleFails(elems: seq<Value>, i: nat)
    requires i < |elems| && Encode(elems[i]).Err?
    ensures Encode(Value.Tuple(elems)) == Err(OperationNotSupported)
  {
  }

  /** One non-storable value under any key of a record makes the whole
      conversion fail. */
  lemma EncodeRecordFails(fields: map<string, Value>, k: string)
    requires k in fields && Encode(fields[k]).Err?
    ensures Encode(Value.Record(fields)) == Err(OperationNotSupported)
  {
  }

  /** What native `get` answers for the arguments `params` against the
      store contents `db`. */
  function GetOutcome(db: map<string, SerializedValue>, params: seq<Value>): (r: Result<Value, RuntimeError>)
    ensures |params| != 1 ==> r == Err(IncorrectParameterCount(1, |params|))
    ensures |params| == 1 && !params[0].String? ==> r == Err(OperationNotSupported)
    ensures r.Ok? <==> |params| == 1 && params[0].String?
    ensures r.Ok? ==> Storable(r.value)
    ensures r.Ok? && params[0].str !in db ==> r.value == Unit
    ensures r.Ok? && params[0].str in db ==> Encode(r.value) == Ok(db[params[0].str])
  {
    if |params| != 1 then
      Err(IncorrectParameterCount(1, |params|))
    else if params[0].String? then
      var key := params[0].str;
      if key in db then
        EncodeDecodeIdentity(db[key]);
        Ok(Decode(db[key]))
      else
        Ok(Unit)
    else
      Err(OperationNotSupported)
  }

  /** What native `set` answers for the arguments `params` against the
      store contents `db`, paired with the store contents afterwards. */
  function SetOutcome(db: map<string, SerializedValue>, params: seq<Value>)
    : (r: (Result<Value, RuntimeError>, map<string, SerializedValue>))
    ensures |params| != 2 ==> r.0 == Err(IncorrectParameterCount(2, |params|))
    ensures |params| == 2 && !params[0].String? ==> r.0 == Err(OperationNotSupported)
    ensures r.0.Ok? <==> |params| == 2 && params[0].String? && Storable(params[1])
    ensures r.0.Err? && |params| == 2 ==> r.0.error == OperationNotSupported
    ensures r.0.Err? ==> r.1 == db
    ensures r.0.Ok? ==> r.0.value == Unit
    ensures r.0.Ok? ==> r.1.Keys == db.Keys + {params[0].str}
    ensures r.0.Ok? ==> Decode(r.1[params[0].str]) == params[1]
    ensures r.0.Ok? ==> forall k | k in db && k != params[0].str :: r.1[k] == db[k]
  {
    if |params| != 2 then
      (Err(IncorrectParameterCount(2, |params|)), db)
    else if params[0].String? then
      match Encode(params[1])
      case Err(e) => (Err(e), db)
      case Ok(s) =>
        DecodeEncode(params[1]);
        (Ok(Unit), db[params[0].str := s])
    else
      (Err(OperationNotSupported), db)
  }

  /** A successful `set` followed by `get` of the same key answers the value
      that was set, whatever the key held before. */
  lemma SetThenGet(db: map<string, SerializedValue>, key: string, v: Value)
    requires SetOutcome(db, [Value.String(key), v]).0.Ok?
    ensures GetOutcome(SetOutcome(db, [Value.String(key), v]).1, [Value.String(key)]) == Ok(v)
  {
  }

  /** A `set` of one key does not change what `get` answers for any other key. */
  lemma SetLeavesOtherKeys(db: map<string, SerializedValue>, params: seq<Value>, other: string)
    requires |params| == 2 && params[0].String? && params[0].str != other
    ensures GetOutcome(SetOutcome(db, params).1, [Value.String(other)]) == GetOutcome(db, [Value.String(other)])
  {
  }

  /** The durable key-value store, as the native functions see it. */
  class Store {
    var entries: map<string, SerializedValue>

    /** Opens the store with whatever it already holds. */
    constructor (persisted: map<string, SerializedValue>)
      ensures entries == persisted
    {
      entries := persisted;
    }

    /** Native `get(key)`: reads the store and never writes it. */
    method Get(params: seq<Value>) returns (r: Result<Value, RuntimeError>)
      ensures r == GetOutcome(entries, params)
    {
      if |params| != 1 {
        return Err(IncorrectParameterCount(1, |params|));
      }
      match params[0]
      case String(key) =>
        if key in entries {
          r := Ok(Decode(entries[key]));
        } else {
          r := Ok(Unit);
        }
      case _ =>
        r := Err(OperationNotSupported);
    }

    /** Native `set(key, value)`: converts `value`, and only if the key is a
        string and the conversion succeeds writes it under `key`. */
    method Set(params: seq<Value>) returns (r: Result<Value, RuntimeError>)
      modifies this
      ensures (r, entries) == SetOutcome(old(entries), params)
    {
      if |params| != 2 {
        return Err(IncorrectParameterCount(2, |params|));
      }
      var key := params[0];
      var value := params[1];
      if key.String? {
        var converted := Encode(value);
        if converted.Err? {
          return Err(converted.error);
        }
        entries := entries[key.str := converted.value];
        r := Ok(Unit);
      } else {
        r := Err(OperationNotSupported);
      }
    }
  }
}
