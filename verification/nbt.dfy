/**
 * Decoded NBT data as the Go code sees it: a value of Go's `any` type whose
 * dynamic type is tested with type assertions.
 */
module Nbt {
  import opened Ints

  /** One dynamic `any` value; every Go type the code never asserts is `Other`. */
  datatype Value =
    | String(s: string)          // string
    | Byte(b: uint8)             // byte (uint8)
    | Int(i: int)                // int
    | Int16(i16: int16)          // int16
    | Int32(i32: int32)          // int32
    | List(items: seq<Value>)    // []any
    | Compound(entries: map<string, Value>)  // map[string]any
    | Other

  /** The Go map lookup `m[key]`: a missing key reads as nil, which no type assertion accepts. */
  function Get(m: map<string, Value>, key: string): Value {
    if key in m then m[key] else Other
  }
}
