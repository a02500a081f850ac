/**
  The parts of the embedded bobascript interpreter that the host touches:
  its runtime values, its runtime errors, and the Result type its native
  functions return. The interpreter itself is not part of this model.
 */
module Bobascript {

  /** A 64-bit float, kept as its IEEE 754 bit pattern. The host only
      carries numbers from one place to another and never computes on them. */
  type F64 = bv64

  /** The interpreter's runtime value. The five storable kinds are spelled
      out; every other kind (functions, closures, natives, ...) is `Other`. */
  datatype Value =
    | Tuple(elems: seq<Value>)
    | Record(fields: map<string, Value>)
    | Number(num: F64)
    | Boolean(b: bool)
    | String(str: string)
    | Other(kind: string)

  /** `Value::get_unit()`: the empty tuple. */
  const Unit: Value := Tuple([])

  /** The runtime errors the host's native functions raise. */
  datatype RuntimeError =
    | IncorrectParameterCount(expected: nat, found: nat)
    | OperationNotSupported

  datatype Result<+T, +E> = Ok(value: T) | Err(error: E)

  /** A native function as the interpreter calls it: a slice of arguments in,
      a value or a runtime error out. */
  type NativeFn = seq<Value> -> Result<Value, RuntimeError>
}
