// The layout language: what a layout item is and which run-time values it describes.
module Layouts {
  import opened Common

  /** A JavaScript `number` or `bigint`. Every non-integral number behaves alike here: it is rejected. */
  datatype Uint = Num(n: int) | Big(n: int) | Fractional

  /** A run-time value. `Custom` stands for the results of custom conversions. */
  datatype Value =
    | Undefined
    | Null
    | UintV(u: Uint)
    | BytesV(b: bytes)
    | ListV(elems: seq<Value>)
    | RecordV(fields: map<string, Value>)
    | Custom(kind: string, parts: seq<Value>)

  /** Custom conversions are functions of the user; `None` stands for an exception. */
  datatype UintConversion = UintConversion(to: Uint -> Option<Value>, from: Value -> Option<Uint>)

  datatype BytesConversion = BytesConversion(to: bytes -> Option<Value>, from: Value -> Option<bytes>)

  const NUMBER_MAX_SIZE := 6

  type NumberSize = n: nat | 1 <= n <= NUMBER_MAX_SIZE witness 1

  datatype UintCustom =
    | PlainUint
    | ConstantUint(value: Uint, omit: bool)
    | ConstantUintAs(from: Uint, to: Value)
    | ConvertedUint(conv: UintConversion)

  datatype BytesForm =
    | ConstantBytes(value: bytes, omit: bool)
    | ConstantBytesAs(from: bytes, to: Value)
    | SizedBytes(size: nat, sizedConv: Option<BytesConversion>)
    | PrefixedBytes(lengthSize: Option<NumberSize>, conv: Option<BytesConversion>)

  datatype Item =
    | UintItem(name: string, size: nat, custom: UintCustom)
    | BytesItem(name: string, form: BytesForm)
    | ArrayItem(name: string, lengthSize: Option<NumberSize>, layout: seq<Item>)
    | ObjectItem(name: string, layout: seq<Item>)
  {
    /** True of a constant that does not show up in the decoded record. */
    predicate Omitted() {
      || (UintItem? && custom.ConstantUint? && custom.omit)
      || (BytesItem? && form.ConstantBytes? && form.omit)
    }
  }

  type Layout = seq<Item>

  /** `data[name]`. */
  function Field(data: Value, name: string): Result<Value> {
    match data
    case Undefined => Err(TypeFault)
    case Null => Err(TypeFault)
    case RecordV(fields) => Ok(if name in fields then fields[name] else Undefined)
    case _ => Ok(Undefined)
  }

  /** The numeric value, for the comparisons that ignore the number/bigint distinction. */
  predicate LooselyEqual(a: Uint, b: Uint) {
    !a.Fractional? && !b.Fractional? && a.n == b.n
  }

  /** The type a decoder produces: `number` up to six bytes, `bigint` above. */
  function ToUint(n: nat, size: nat): Uint {
    if size > NUMBER_MAX_SIZE then Big(n) else Num(n)
  }
}
