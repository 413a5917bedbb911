// deserialize.ts: the parser. The functions say what a byte string decodes to; the methods run the
// source's loops and are proved against the functions.
module Deserialize {
  import opened Common
  import opened BigEndian
  import opened Layouts
  import opened Serialize

  datatype Parsed<+T> = Parsed(value: T, offset: nat)

  type Fields = map<string, Value>

  // ---- what a byte string decodes to ------------------------------------------------------

  function UpdateOffset(encoded: bytes, offset: nat, size: nat): Result<nat> {
    if offset + size > |encoded| then Err(TooShort) else Ok(offset + size)
  }

  /** deserializeUint. Reading past the end yields `undefined`, which BigInt() refuses. */
  function ParseUint(encoded: bytes, offset: nat, size: nat): Result<Parsed<nat>> {
    if offset + size > |encoded| then Err(if size > 0 then TypeFault else TooShort)
    else Ok(Parsed(Number(encoded[offset..offset + size]), offset + size))
  }

  /** What a uint item makes of the number `n` it has read. */
  function LoadedUint(custom: UintCustom, size: nat, n: nat): Result<Value> {
    match custom
    case PlainUint => Ok(UintV(ToUint(n, size)))
    case ConstantUint(c, _) =>
      if LooselyEqual(c, ToUint(n, size)) then Ok(UintV(c)) else Err(ValueMismatch)
    case ConstantUintAs(from, to) =>
      if LooselyEqual(from, ToUint(n, size)) then Ok(to) else Err(ValueMismatch)
    case ConvertedUint(conv) => Converted(conv.to(ToUint(n, size)))
  }

  function ParseConstantBytes(constant: bytes, to: Value, encoded: bytes, offset: nat): Result<Parsed<Value>> {
    var end :- UpdateOffset(encoded, offset, |constant|);
    var _ :- CheckBytesEqual(constant, encoded[offset..end]);
    Ok(Parsed(to, end))
  }

  function LoadedBytes(conv: Option<BytesConversion>, b: bytes): Result<Value> {
    match conv
    case None => Ok(BytesV(b))
    case Some(c) => Converted(c.to(b))
  }

  /** `fixedTo ?? fixedFrom` */
  function ConstantValue(from: bytes, to: Value): Value {
    if to.Undefined? || to.Null? then BytesV(from) else to
  }

  function ParseBytes(form: BytesForm, encoded: bytes, offset: nat): Result<Parsed<Value>> {
    match form
    case ConstantBytes(c, _) => ParseConstantBytes(c, BytesV(c), encoded, offset)
    case ConstantBytesAs(from, to) => ParseConstantBytes(from, ConstantValue(from, to), encoded, offset)
    case SizedBytes(size, conv) =>
      var end :- UpdateOffset(encoded, offset, size);
      var v :- LoadedBytes(conv, encoded[offset..end]);
      Ok(Parsed(v, end))
    case PrefixedBytes(Some(n), conv) =>
      var length :- ParseUint(encoded, offset, n);
      var end :- UpdateOffset(encoded, length.offset, length.value);
      var v :- LoadedBytes(conv, encoded[length.offset..end]);
      Ok(Parsed(v, end))
    case PrefixedBytes(None, conv) =>
      var v :- LoadedBytes(conv, if offset <= |encoded| then encoded[offset..] else []);
      Ok(Parsed(v, |encoded|))
  }

  function ParseItem(item: Item, encoded: bytes, offset: nat): Result<Parsed<Value>>
    decreases item, 0, 0
  {
    match item
    case UintItem(_, size, custom) =>
      var n :- ParseUint(encoded, offset, size);
      var v :- LoadedUint(custom, size, n.value);
      Ok(Parsed(v, n.offset))
    case BytesItem(_, form) => ParseBytes(form, encoded, offset)
    case ArrayItem(_, Some(n), layout) =>
      var length :- ParseUint(encoded, offset, n);
      var elems :- ParseElems(layout, encoded, length.offset, length.value);
      Ok(Parsed(ListV(elems.value), elems.offset))
    case ArrayItem(_, None, layout) =>
      var elems :- ParseToEnd(layout, encoded, offset);
      Ok(Parsed(ListV(elems.value), elems.offset))
    case ObjectItem(_, layout) =>
      var fields :- ParseLayout(layout, encoded, offset);
      Ok(Parsed(RecordV(fields.value), fields.offset))
  }

  /** The assignment to `decoded[item.name]`, which an omitted item makes to a throw-away object. */
  function Assign(item: Item, v: Value): Fields {
    if item.Omitted() then map[] else map[item.name := v]
  }

  function ParseLayout(layout: Layout, encoded: bytes, offset: nat): Result<Parsed<Fields>>
    decreases layout, 0, 0
  {
    if |layout| == 0 then Ok(Parsed(map[], offset))
    else
      var first :- ParseItem(layout[0], encoded, offset);
      var rest :- ParseLayout(layout[1..], encoded, first.offset);
      Ok(Parsed(Assign(layout[0], first.value) + rest.value, rest.offset))
  }

  function ParseElems(layout: Layout, encoded: bytes, offset: nat, count: nat): Result<Parsed<seq<Value>>>
    decreases layout, 1, count
  {
    if count == 0 then Ok(Parsed([], offset))
    else
      var first :- ParseLayout(layout, encoded, offset);
      var rest :- ParseElems(layout, encoded, first.offset, count - 1);
      Ok(Parsed([RecordV(first.value)] + rest.value, rest.offset))
  }

  /**
   * Elements until the data runs out. An element that consumes nothing is read again at the same
   * offset for ever; `NonTerminating` stands for that.
   */
  function ParseToEnd(layout: Layout, encoded: bytes, offset: nat): Result<Parsed<seq<Value>>>
    decreases layout, 1, if offset < |encoded| then |encoded| - offset else 0
  {
    if offset >= |encoded| then Ok(Parsed([], offset))
    else
      var first :- ParseLayout(layout, encoded, offset);
      if first.offset <= offset then Err(NonTerminating)
      else
        var rest :- ParseToEnd(layout, encoded, first.offset);
        Ok(Parsed([RecordV(first.value)] + rest.value, rest.offset))
  }

  /** deserializeLayout with consumeAll. */
  function ParseAll(layout: Layout, encoded: bytes, offset: nat): Result<Value> {
    var fields :- ParseLayout(layout, encoded, offset);
    if fields.offset != |encoded| then Err(TooLong) else Ok(RecordV(fields.value))
  }

  // ---- the loops --------------------------------------------------------------------------

  method DeserializeUint(encoded: bytes, offset: nat, size: nat) returns (r: Result<Parsed<nat>>)
    ensures r == ParseUint(encoded, offset, size)
  {
    var value := 0;
    for i := 0 to size
      invariant offset + i <= |encoded| || i == 0
      invariant value == (if i == 0 then 0 else Number(encoded[offset..offset + i]) * Pow256(size - i))
    {
      if offset + i >= |encoded| {
        return Err(TypeFault);
      }
      NextDigit(encoded, offset, i, size);
      value := value + encoded[offset + i] * Pow256(size - 1 - i);
    }
    var end := UpdateOffset(encoded, offset, size);
    if end.Err? {
      return Err(end.error);
    }
    assert encoded[offset..offset + size] == [] || size > 0;
    return Ok(Parsed(value, end.value));
  }

  lemma NextDigit(encoded: bytes, offset: nat, i: nat, size: nat)
    requires offset + i < |encoded| && i < size
    ensures Number(encoded[offset..offset + i + 1]) * Pow256(size - i - 1)
         == Number(encoded[offset..offset + i]) * Pow256(size - i) + encoded[offset + i] * Pow256(size - 1 - i)
    ensures i == 0 ==> Number(encoded[offset..offset + i]) == 0
  {
    var n, b, p := Number(encoded[offset..offset + i]), encoded[offset + i], Pow256(size - i - 1);
    assert encoded[offset..offset + i + 1][..i] == encoded[offset..offset + i];
    assert Number(encoded[offset..offset + i + 1]) == n * 256 + b;
    Rescale(n, b, p);
  }

  lemma Rescale(n: int, b: int, p: int)
    ensures (n * 256 + b) * p == n * (256 * p) + b * p
  {
  }

  method DeserializeBytes(form: BytesForm, encoded: bytes, offset: nat) returns (r: Result<Parsed<Value>>)
    ensures r == ParseBytes(form, encoded, offset)
  {
    var start, newOffset := offset, Ok(|encoded|);
    match form {
      case ConstantBytes(c, _) => newOffset := UpdateOffset(encoded, offset, |c|);
      case ConstantBytesAs(from, _) => newOffset := UpdateOffset(encoded, offset, |from|);
      case SizedBytes(size, _) => newOffset := UpdateOffset(encoded, offset, size);
      case PrefixedBytes(Some(n), _) =>
        var length := DeserializeUint(encoded, offset, n);
        if length.Err? {
          return Err(length.error);
        }
        start := length.value.offset;
        newOffset := UpdateOffset(encoded, start, length.value.value);
      case PrefixedBytes(None, _) =>
    }
    if newOffset.Err? {
      return Err(newOffset.error);
    }
    var end := newOffset.value;
    var value: bytes := if start <= end then encoded[start..end] else [];
    match form {
      case ConstantBytes(c, _) =>
        var check := CheckUint8ArrayDeeplyEqual(c, value);
        return if check.Err? then Err(check.error) else Ok(Parsed(BytesV(c), end));
      case ConstantBytesAs(from, to) =>
        var check := CheckUint8ArrayDeeplyEqual(from, value);
        return if check.Err? then Err(check.error) else Ok(Parsed(ConstantValue(from, to), end));
      case SizedBytes(_, conv) =>
        var v := LoadedBytes(conv, value);
        return if v.Err? then Err(v.error) else Ok(Parsed(v.value, end));
      case PrefixedBytes(lengthSize, conv) =>
        assert lengthSize.None? ==> value == if offset <= |encoded| then encoded[offset..] else [];
        var v := LoadedBytes(conv, value);
        return if v.Err? then Err(v.error) else Ok(Parsed(v.value, end));
    }
  }

  method DeserializeItem(item: Item, encoded: bytes, offset: nat) returns (r: Result<Parsed<Value>>)
    ensures r == ParseItem(item, encoded, offset)
    decreases item, 0, 0
  {
    match item {
      case ObjectItem(_, layout) =>
        var fields := InternalDeserializeLayout(layout, encoded, offset);
        return if fields.Err? then Err(fields.error) else Ok(Parsed(RecordV(fields.value.value), fields.value.offset));
      case ArrayItem(_, lengthSize, layout) =>
        var elems: Result<Parsed<seq<Value>>>;
        if lengthSize.Some? {
          var length := DeserializeUint(encoded, offset, lengthSize.value);
          if length.Err? {
            return Err(length.error);
          }
          elems := DeserializeElems(layout, encoded, length.value.offset, length.value.value);
        } else {
          elems := DeserializeToEnd(layout, encoded, offset);
        }
        return if elems.Err? then Err(elems.error) else Ok(Parsed(ListV(elems.value.value), elems.value.offset));
      case BytesItem(_, form) =>
        r := DeserializeBytes(form, encoded, offset);
      case UintItem(_, size, custom) =>
        var n := DeserializeUint(encoded, offset, size);
        if n.Err? {
          return Err(n.error);
        }
        var v := LoadedUint(custom, size, n.value.value);
        return if v.Err? then Err(v.error) else Ok(Parsed(v.value, n.value.offset));
    }
  }

  function PrependElems(done: seq<Value>, rest: Result<Parsed<seq<Value>>>): Result<Parsed<seq<Value>>> {
    if rest.Ok? then Ok(Parsed(done + rest.value.value, rest.value.offset)) else rest
  }

  lemma PrependOne(done: seq<Value>, v: Value, rest: Result<Parsed<seq<Value>>>)
    ensures PrependElems(done, PrependElems([v], rest)) == PrependElems(done + [v], rest)
  {
    assert rest.Ok? ==> done + ([v] + rest.value.value) == done + [v] + rest.value.value;
  }

  method DeserializeElems(layout: Layout, encoded: bytes, offset: nat, count: nat)
    returns (r: Result<Parsed<seq<Value>>>)
    ensures r == ParseElems(layout, encoded, offset, count)
    decreases layout, 1, 0
  {
    var ret, at := [], offset;
    ghost var spec := ParseElems(layout, encoded, offset, count);
    assert spec.Ok? ==> [] + spec.value.value == spec.value.value;
    for i := 0 to count
      invariant spec == PrependElems(ret, ParseElems(layout, encoded, at, count - i))
    {
      var next := InternalDeserializeLayout(layout, encoded, at);
      if next.Err? {
        return Err(next.error);
      }
      PrependOne(ret, RecordV(next.value.value), ParseElems(layout, encoded, next.value.offset, count - i - 1));
      ret, at := ret + [RecordV(next.value.value)], next.value.offset;
    }
    assert ret + [] == ret;
    return Ok(Parsed(ret, at));
  }

  method DeserializeToEnd(layout: Layout, encoded: bytes, offset: nat) returns (r: Result<Parsed<seq<Value>>>)
    ensures r == ParseToEnd(layout, encoded, offset)
    decreases layout, 1, 0
  {
    var ret, at := [], offset;
    ghost var spec := ParseToEnd(layout, encoded, offset);
    assert spec.Ok? ==> [] + spec.value.value == spec.value.value;
    while at < |encoded|
      invariant spec == PrependElems(ret, ParseToEnd(layout, encoded, at))
    {
      var next := InternalDeserializeLayout(layout, encoded, at);
      if next.Err? {
        return Err(next.error);
      }
      if next.value.offset <= at {
        return Err(NonTerminating);
      }
      PrependOne(ret, RecordV(next.value.value), ParseToEnd(layout, encoded, next.value.offset));
      ret, at := ret + [RecordV(next.value.value)], next.value.offset;
    }
    assert ret + [] == ret;
    return Ok(Parsed(ret, at));
  }

  function PrependFields(done: Fields, rest: Result<Parsed<Fields>>): Result<Parsed<Fields>> {
    if rest.Ok? then Ok(Parsed(done + rest.value.value, rest.value.offset)) else rest
  }

  lemma PrependField(done: Fields, f: Fields, rest: Result<Parsed<Fields>>)
    ensures PrependFields(done, PrependFields(f, rest)) == PrependFields(done + f, rest)
  {
    assert rest.Ok? ==> done + (f + rest.value.value) == done + f + rest.value.value;
  }

  method InternalDeserializeLayout(layout: Layout, encoded: bytes, offset: nat) returns (r: Result<Parsed<Fields>>)
    ensures r == ParseLayout(layout, encoded, offset)
    decreases layout, 0, 0
  {
    var decoded: Fields, at := map[], offset;
    ghost var spec := ParseLayout(layout, encoded, offset);
    assert layout[0..] == layout;
    assert spec.Ok? ==> map[] + spec.value.value == spec.value.value;
    for i := 0 to |layout|
      invariant spec == PrependFields(decoded, ParseLayout(layout[i..], encoded, at))
    {
      assert layout[i..][1..] == layout[i + 1..];
      var next := DeserializeItem(layout[i], encoded, at);
      if next.Err? {
        return Err(next.error);
      }
      PrependField(decoded, Assign(layout[i], next.value.value), ParseLayout(layout[i + 1..], encoded, next.value.offset));
      assert decoded + map[] == decoded;
      assert decoded + map[layout[i].name := next.value.value] == decoded[layout[i].name := next.value.value];
      if !layout[i].Omitted() {
        decoded := decoded[layout[i].name := next.value.value];
      }
      at := next.value.offset;
    }
    assert decoded + map[] == decoded;
    return Ok(Parsed(decoded, at));
  }

  method DeserializeLayout(layout: Layout, encoded: bytes, offset: nat, consumeAll: bool)
    returns (r: Result<Parsed<Value>>)
    ensures consumeAll ==> r == match ParseAll(layout, encoded, offset)
                                case Ok(v) => Ok(Parsed(v, |encoded|))
                                case Err(e) => Err(e)
    ensures !consumeAll ==> r == match ParseLayout(layout, encoded, offset)
                                 case Ok(p) => Ok(Parsed(RecordV(p.value), p.offset))
                                 case Err(e) => Err(e)
  {
    var decoded := InternalDeserializeLayout(layout, encoded, offset);
    if decoded.Err? {
      return Err(decoded.error);
    }
    if consumeAll && decoded.value.offset != |encoded| {
      return Err(TooLong);
    }
    return Ok(Parsed(RecordV(decoded.value.value), decoded.value.offset));
  }
}
