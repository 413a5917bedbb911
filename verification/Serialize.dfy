// serialize.ts: the printer. The functions say which bytes a value is printed as; the methods write
// them into a buffer the way the source does and are proved against the functions.
module Serialize {
  import opened Common
  import opened BigEndian
  import opened Layouts

  // ---- utils.ts ---------------------------------------------------------------------------

  function CheckUintEquals(constant: Uint, data: Value): Result<()> {
    if data.UintV? && LooselyEqual(constant, data.u) then Ok(()) else Err(ValueMismatch)
  }

  function CheckBytesEqual(constant: bytes, data: bytes): Result<()> {
    if |constant| != |data| then Err(SizeMismatch)
    else if constant != data then Err(DataMismatch)
    else Ok(())
  }

  method CheckUint8ArrayDeeplyEqual(constant: bytes, data: bytes) returns (r: Result<()>)
    ensures r == CheckBytesEqual(constant, data)
  {
    if |constant| != |data| {
      return Err(SizeMismatch);
    }
    for i := 0 to |constant|
      invariant constant[..i] == data[..i]
    {
      if constant[i] != data[i] {
        return Err(DataMismatch);
      }
    }
    return Ok(());
  }

  // ---- which bytes ------------------------------------------------------------------------

  function UintBytes(u: Uint, size: nat): (r: Result<bytes>)
    ensures r.Ok? ==> |r.value| == size
  {
    if u.Fractional? || u.n < 0 then Err(NotUnsigned)
    else if size > NUMBER_MAX_SIZE && u.Num? && u.n >= Pow256(NUMBER_MAX_SIZE) then Err(UnsafeNumber)
    else if u.n >= Pow256(size) then Err(TooLarge)
    else Ok(Digits(u.n, size))
  }

  function AsUint(v: Value): Result<Uint> {
    if v.UintV? then Ok(v.u) else Err(TypeFault)
  }

  function AsBytes(v: Value): Result<bytes> {
    if v.BytesV? then Ok(v.b) else Err(TypeFault)
  }

  /** The number a uint item stores for the value `v`. */
  function StoredUint(custom: UintCustom, v: Value): Result<Uint> {
    match custom
    case PlainUint => AsUint(v)
    case ConstantUint(c, omit) =>
      var _ :- if omit then Ok(()) else CheckUintEquals(c, v);
      Ok(c)
    case ConstantUintAs(from, _) => Ok(from)
    case ConvertedUint(conv) => Converted(conv.from(v))
  }

  /** The bytes a dynamic bytes item stores for the value `v`. */
  function StoredBytes(conv: Option<BytesConversion>, v: Value): Result<bytes> {
    match conv
    case None => AsBytes(v)
    case Some(c) => Converted(c.from(v))
  }

  function BytesFormBytes(form: BytesForm, v: Value): Result<bytes> {
    match form
    case ConstantBytes(c, omit) =>
      if omit then Ok(c)
      else
        var b :- AsBytes(v);
        var _ :- CheckBytesEqual(c, b);
        Ok(c)
    case ConstantBytesAs(from, _) => Ok(from)
    case SizedBytes(size, conv) =>
      var b :- StoredBytes(conv, v);
      if |b| == size then Ok(b) else Err(SizeMismatch)
    case PrefixedBytes(None, conv) => StoredBytes(conv, v)
    case PrefixedBytes(Some(n), conv) =>
      var b :- StoredBytes(conv, v);
      var prefix :- UintBytes(Num(|b|), n);
      Ok(prefix + b)
  }

  function ItemBytes(item: Item, v: Value): Result<bytes>
    decreases item, 0, 0
  {
    match item
    case UintItem(_, size, custom) =>
      var u :- StoredUint(custom, v);
      UintBytes(u, size)
    case BytesItem(_, form) => BytesFormBytes(form, v)
    case ArrayItem(_, lengthSize, layout) =>
      if !v.ListV? then Err(TypeFault)
      else
        var prefix :- PrefixBytes(lengthSize, |v.elems|);
        var body :- ElemsBytes(layout, v.elems);
        Ok(prefix + body)
    case ObjectItem(_, layout) => LayoutBytes(layout, v)
  }

  function PrefixBytes(lengthSize: Option<NumberSize>, length: nat): Result<bytes> {
    match lengthSize
    case None => Ok([])
    case Some(n) => UintBytes(Num(length), n)
  }

  /** The bytes the record `data` is printed as, item by item in layout order. */
  function LayoutBytes(layout: Layout, data: Value): Result<bytes>
    decreases layout, 0, 0
  {
    if |layout| == 0 then Ok([])
    else
      var first :- FieldBytes(layout[0], data);
      var rest :- LayoutBytes(layout[1..], data);
      Ok(first + rest)
  }

  function FieldBytes(item: Item, data: Value): Result<bytes>
    decreases item, 1, 0
  {
    var v :- Field(data, item.name);
    ItemBytes(item, v)
  }

  function ElemsBytes(layout: Layout, elems: seq<Value>): Result<bytes>
    decreases layout, 1, |elems|
  {
    if |elems| == 0 then Ok([])
    else
      var first :- LayoutBytes(layout, elems[0]);
      var rest :- ElemsBytes(layout, elems[1..]);
      Ok(first + rest)
  }

  // ---- what is refused --------------------------------------------------------------------

  /** A uint is printed just if it is a whole number that fits, and no `number` from 2^48 on goes into more than six bytes. */
  lemma UintsThatFit(u: Uint, size: nat)
    ensures UintBytes(u, size).Ok? <==>
              !u.Fractional? && 0 <= u.n < Pow256(size) && (u.Num? && size > 6 ==> u.n < 0x1_0000_0000_0000)
  {
    assert Pow256(2) == 0x1_0000 && Pow256(4) == 0x1_0000_0000;
    assert Pow256(6) == 256 * (256 * Pow256(4));
  }

  /** `v` has the constants of the item that are not omitted, compared as loosely as the source does. */
  predicate HasItsConstants(item: Item, v: Value)
    decreases item
  {
    match item
    case UintItem(_, _, ConstantUint(c, false)) => v.UintV? && !c.Fractional? && !v.u.Fractional? && v.u.n == c.n
    case BytesItem(_, ConstantBytes(c, false)) => v == BytesV(c)
    case ArrayItem(_, _, layout) => v.ListV? && forall e <- v.elems :: HasConstantsOf(layout, e)
    case ObjectItem(_, layout) => HasConstantsOf(layout, v)
    case _ => true
  }

  predicate HasConstantsOf(layout: Layout, data: Value)
    decreases layout
  {
    |layout| > 0 ==>
      && Field(data, layout[0].name).Ok? && HasItsConstants(layout[0], Field(data, layout[0].name).value)
      && HasConstantsOf(layout[1..], data)
  }

  /** A constant is printed just if it fits and is omitted or there - as a number or a bigint. */
  lemma ConstantPrintsIfThere(item: Item, v: Value)
    ensures item.UintItem? && item.custom.ConstantUint? && !item.custom.value.Fractional? ==>
              ItemBytes(item, v) ==
                if item.custom.omit || HasItsConstants(item, v) then UintBytes(item.custom.value, item.size) else Err(ValueMismatch)
    ensures item.BytesItem? && item.form.ConstantBytes? ==>
              (ItemBytes(item, v).Ok? <==> item.form.omit || HasItsConstants(item, v))
              && (ItemBytes(item, v).Ok? ==> ItemBytes(item, v).value == item.form.value)
  {
    if item.UintItem? && item.custom.ConstantUint? {
      assert item.custom == ConstantUint(item.custom.value, item.custom.omit);
    }
    if item.BytesItem? && item.form.ConstantBytes? {
      assert item.form == ConstantBytes(item.form.value, item.form.omit);
    }
  }

  /** Values of another type, or bytes of another size, are not printed. */
  lemma PrintedIsTyped(item: Item, v: Value)
    requires ItemBytes(item, v).Ok?
    ensures item.UintItem? && item.custom.PlainUint? ==> v.UintV?
    ensures item.BytesItem? && item.form.SizedBytes? && item.form.sizedConv.None? ==> v.BytesV? && |v.b| == item.form.size
    ensures item.BytesItem? && item.form.PrefixedBytes? && item.form.conv.None? ==> v.BytesV?
    ensures item.ArrayItem? ==> v.ListV?
    ensures item.ObjectItem? && item.layout != [] ==> !v.Undefined? && !v.Null?
  {
    if item.ObjectItem? && item.layout != [] {
      assert FieldBytes(item.layout[0], v).Ok?;
    }
  }

  /** What a record lacks is printed as what `undefined` is. */
  lemma MissingFieldIsUndefined(item: Item, fields: map<string, Value>)
    requires item.name !in fields
    ensures FieldBytes(item, RecordV(fields)) == ItemBytes(item, Undefined)
  {
  }

  /** Data with another value for a constant is never printed, however deep the constant is. */
  lemma {:induction false} PrintedHasConstants(layout: Layout, data: Value)
    requires LayoutBytes(layout, data).Ok?
    ensures HasConstantsOf(layout, data)
    decreases layout, 0, 0
  {
    if |layout| > 0 {
      PrintedItemHasConstants(layout[0], Field(data, layout[0].name).value);
      PrintedHasConstants(layout[1..], data);
    }
  }

  lemma {:induction false} PrintedItemHasConstants(item: Item, v: Value)
    requires ItemBytes(item, v).Ok?
    ensures HasItsConstants(item, v)
    decreases item, 0, 0
  {
    match item
    case ObjectItem(_, layout) => PrintedHasConstants(layout, v);
    case ArrayItem(_, _, layout) => PrintedElemsHaveConstants(layout, v.elems);
    case _ =>
  }

  lemma {:induction false} PrintedElemsHaveConstants(layout: Layout, elems: seq<Value>)
    requires ElemsBytes(layout, elems).Ok?
    ensures forall e <- elems :: HasConstantsOf(layout, e)
    decreases layout, 1, |elems|
  {
    if |elems| > 0 {
      PrintedHasConstants(layout, elems[0]);
      PrintedElemsHaveConstants(layout, elems[1..]);
    }
  }

  // ---- how many bytes: calcLayoutSize -----------------------------------------------------

  function BytesFormSize(form: BytesForm, v: Value): Result<nat> {
    match form
    case ConstantBytes(c, _) => Ok(|c|)
    case ConstantBytesAs(from, _) => Ok(|from|)
    case SizedBytes(size, _) => Ok(size)
    case PrefixedBytes(lengthSize, conv) =>
      var b :- StoredBytes(conv, v);
      Ok((if lengthSize.Some? then lengthSize.value else 0) + |b|)
  }

  /** The items whose size depends on the value that is printed. */
  predicate SizeNeedsData(item: Item) {
    item.ArrayItem? || item.ObjectItem? || (item.BytesItem? && item.form.PrefixedBytes?)
  }

  function ItemSize(item: Item, v: Value): Result<nat>
    decreases item, 0, 0
  {
    match item
    case UintItem(_, size, _) => Ok(size)
    case BytesItem(_, form) => BytesFormSize(form, v)
    case ArrayItem(_, lengthSize, layout) =>
      if !v.ListV? then Err(TypeFault)
      else
        var body :- ElemsSize(layout, v.elems);
        Ok((if lengthSize.Some? then lengthSize.value else 0) + body)
    case ObjectItem(_, layout) => LayoutSize(layout, v)
  }

  function LayoutSize(layout: Layout, data: Value): Result<nat>
    decreases layout, 0, 0
  {
    if |layout| == 0 then Ok(0)
    else
      var first :- FieldSize(layout[0], data);
      var rest :- LayoutSize(layout[1..], data);
      Ok(first + rest)
  }

  function FieldSize(item: Item, data: Value): Result<nat>
    decreases item, 1, 0
  {
    var v :- if SizeNeedsData(item) then Field(data, item.name) else Ok(Undefined);
    ItemSize(item, v)
  }

  function ElemsSize(layout: Layout, elems: seq<Value>): Result<nat>
    decreases layout, 1, |elems|
  {
    if |elems| == 0 then Ok(0)
    else
      var first :- LayoutSize(layout, elems[0]);
      var rest :- ElemsSize(layout, elems[1..]);
      Ok(first + rest)
  }

  /** Whatever can be printed has exactly the size computed beforehand. */
  lemma {:induction false} SizeOfLayoutBytes(layout: Layout, data: Value)
    requires LayoutBytes(layout, data).Ok?
    ensures LayoutSize(layout, data) == Ok(|LayoutBytes(layout, data).value|)
    decreases layout, 0, 0
  {
    if |layout| > 0 {
      SizeOfFieldBytes(layout[0], data);
      SizeOfLayoutBytes(layout[1..], data);
    }
  }

  lemma {:induction false} SizeOfItemBytes(item: Item, v: Value)
    requires ItemBytes(item, v).Ok?
    ensures ItemSize(item, v) == Ok(|ItemBytes(item, v).value|)
    decreases item, 0, 0
  {
    match item
    case UintItem(_, _, _) =>
    case BytesItem(_, _) =>
    case ArrayItem(_, _, layout) => SizeOfElemsBytes(layout, v.elems);
    case ObjectItem(_, layout) => SizeOfLayoutBytes(layout, v);
  }

  lemma {:induction false} SizeOfFieldBytes(item: Item, data: Value)
    requires FieldBytes(item, data).Ok?
    ensures FieldSize(item, data) == Ok(|FieldBytes(item, data).value|)
    decreases item, 1, 0
  {
    var v := Field(data, item.name).value;
    SizeOfItemBytes(item, v);
    if !SizeNeedsData(item) {
      SizeOfUndefined(item, v);
    }
  }

  lemma {:induction false} SizeOfElemsBytes(layout: Layout, elems: seq<Value>)
    requires ElemsBytes(layout, elems).Ok?
    ensures ElemsSize(layout, elems) == Ok(|ElemsBytes(layout, elems).value|)
    decreases layout, 1, |elems|
  {
    if |elems| > 0 {
      SizeOfLayoutBytes(layout, elems[0]);
      SizeOfElemsBytes(layout, elems[1..]);
    }
  }

  // ---- into a buffer ----------------------------------------------------------------------

  /** `s` with `bs` laid over it at `offset`; what falls past the end is lost. */
  function Overlay(s: bytes, offset: nat, bs: bytes): (r: bytes)
    ensures |r| == |s|
  {
    seq(|s|, i requires 0 <= i < |s| => if offset <= i < offset + |bs| then bs[i - offset] else s[i])
  }

  /**
   * What a writer that prints `spec` at `offset` and has computed `size` does to a buffer:
   *  - it never touches what lies before `offset`;
   *  - when it succeeds, the bytes of `spec`, and nothing else, have been laid over the buffer;
   *  - it succeeds whenever there are bytes to print and there is room for them;
   *  - with enough room, it fails with the error of `spec` and leaves alone what lies past `size`.
   */
  ghost predicate Printed(before: bytes, after: bytes, offset: nat, spec: Result<bytes>, size: Result<nat>, r: Result<nat>) {
    && |after| == |before|
    && (forall k | 0 <= k < |before| && k < offset :: after[k] == before[k])
    && (r.Ok? ==> spec.Ok? && r.value == offset + |spec.value| && after == Overlay(before, offset, spec.value))
    && (spec.Ok? && offset + |spec.value| <= |before| ==> r.Ok?)
    && (spec.Err? && size.Ok? && offset + size.value <= |before| ==>
          && r == Err(spec.error)
          && forall k | offset + size.value <= k < |before| :: after[k] == before[k])
  }

  /** serializeUint. Assigning past the end of a typed array is silently ignored. */
  method SerializeUint(encoded: array<byte>, offset: nat, val: Uint, size: nat) returns (r: Result<nat>)
    modifies encoded
    ensures r == if UintBytes(val, size).Ok? then Ok(offset + size) else Err(UintBytes(val, size).error)
    ensures encoded[..] ==
      if r.Ok? then Overlay(old(encoded[..]), offset, UintBytes(val, size).value) else old(encoded[..])
  {
    if val.Fractional? || val.n < 0 {
      return Err(NotUnsigned);
    }
    if size > NUMBER_MAX_SIZE && val.Num? && val.n >= Pow256(NUMBER_MAX_SIZE) {
      return Err(UnsafeNumber);
    }
    if val.n >= Pow256(size) {
      return Err(TooLarge);
    }
    ghost var before := encoded[..];
    for i := 0 to size
      invariant encoded[..] == Overlay(before, offset, Digits(val.n, size)[..i])
    {
      DigitAt(val.n, size, i);
      if offset + i < encoded.Length {
        encoded[offset + i] := val.n / Pow256(size - 1 - i) % 256;
      }
    }
    assert Digits(val.n, size)[..size] == Digits(val.n, size);
    return Ok(offset + size);
  }

  /** `encoded.set(value, offset)` of typed arrays. */
  method SetBytes(encoded: array<byte>, value: bytes, offset: nat) returns (r: Result<nat>)
    modifies encoded
    ensures r == if offset + |value| <= encoded.Length then Ok(offset + |value|) else Err(OutOfRange)
    ensures encoded[..] == if r.Ok? then Overlay(old(encoded[..]), offset, value) else old(encoded[..])
  {
    if offset + |value| > encoded.Length {
      return Err(OutOfRange);
    }
    ghost var before := encoded[..];
    for i := 0 to |value|
      invariant encoded[..] == Overlay(before, offset, value[..i])
    {
      encoded[offset + i] := value[i];
    }
    assert value[..|value|] == value;
    return Ok(offset + |value|);
  }

  lemma OverlayTwice(s: bytes, offset: nat, a: bytes, b: bytes)
    ensures Overlay(Overlay(s, offset, a), offset + |a|, b) == Overlay(s, offset, a + b)
  {
  }

  lemma OverlayAll(s: bytes, bs: bytes)
    requires |s| == |bs|
    ensures Overlay(s, 0, bs) == bs
  {
  }

  /** `spec` with the bytes `done` in front. */
  function Prepend(done: bytes, spec: Result<bytes>): Result<bytes> {
    if spec.Ok? then Ok(done + spec.value) else spec
  }

  function AddSize(done: nat, size: Result<nat>): Result<nat> {
    if size.Ok? then Ok(done + size.value) else size
  }

  function Concat(first: Result<bytes>, rest: Result<bytes>): Result<bytes> {
    var a :- first;
    var b :- rest;
    Ok(a + b)
  }

  function SumSizes(first: Result<nat>, rest: Result<nat>): Result<nat> {
    var a :- first;
    var b :- rest;
    Ok(a + b)
  }

  /** One round of a printing loop: `done` is already in the buffer, `first` has just been printed. */
  lemma PrintedNext(before: bytes, mid: bytes, after: bytes, offset: nat, done: bytes,
                    first: Result<bytes>, firstSize: Result<nat>, rest: Result<bytes>, restSize: Result<nat>,
                    next: Result<nat>)
    requires mid == Overlay(before, offset, done)
    requires first.Ok? ==> firstSize == Ok(|first.value|)
    requires Printed(mid, after, offset + |done|, first, firstSize, next)
    ensures next.Ok? ==>
              && after == Overlay(before, offset, done + first.value)
              && next.value == offset + |done + first.value|
              && Prepend(done, Concat(first, rest)) == Prepend(done + first.value, rest)
              && AddSize(|done|, SumSizes(firstSize, restSize)) == AddSize(|done + first.value|, restSize)
    ensures next.Err? ==>
              Printed(before, after, offset, Prepend(done, Concat(first, rest)),
                      AddSize(|done|, SumSizes(firstSize, restSize)), next)
  {
    if next.Ok? {
      OverlayTwice(before, offset, done, first.value);
      assert rest.Ok? ==> done + (first.value + rest.value) == done + first.value + rest.value;
    }
  }

  /** The state of a printing loop: `done` lies over the buffer, and what is left has been specified by `rest`. */
  ghost predicate Printing(before: bytes, now: bytes, offset: nat, done: bytes, at: nat, spec: Result<bytes>,
                           size: Result<nat>, rest: Result<bytes>, restSize: Result<nat>) {
    && at == offset + |done| && now == Overlay(before, offset, done)
    && spec == Prepend(done, rest) && size == AddSize(|done|, restSize)
  }

  lemma AllPrinted(before: bytes, now: bytes, offset: nat, done: bytes, at: nat, spec: Result<bytes>, size: Result<nat>)
    requires Printing(before, now, offset, done, at, spec, size, Ok([]), Ok(0))
    ensures Printed(before, now, offset, spec, size, Ok(at))
  {
    assert done + [] == done;
  }

  lemma NothingPrinted(before: bytes, offset: nat, spec: Result<bytes>, size: Result<nat>)
    ensures Overlay(before, offset, []) == before
    ensures Prepend([], spec) == spec && AddSize(0, size) == size
  {
    assert spec.Ok? ==> [] + spec.value == spec.value;
  }

  lemma UnfoldAt(layout: Layout, data: Value, i: nat)
    requires i < |layout|
    ensures LayoutBytes(layout[i..], data) == Concat(FieldBytes(layout[i], data), LayoutBytes(layout[i + 1..], data))
    ensures LayoutSize(layout[i..], data) == SumSizes(FieldSize(layout[i], data), LayoutSize(layout[i + 1..], data))
    ensures FieldBytes(layout[i], data).Ok? ==>
              FieldSize(layout[i], data) == Ok(|FieldBytes(layout[i], data).value|)
  {
    assert layout[i..][1..] == layout[i + 1..];
    if FieldBytes(layout[i], data).Ok? {
      SizeOfFieldBytes(layout[i], data);
    }
  }

  lemma SizeOfUndefined(item: Item, v: Value)
    requires !SizeNeedsData(item)
    ensures ItemSize(item, Undefined) == ItemSize(item, v)
  {
  }

  method SerializeBytesForm(form: BytesForm, v: Value, encoded: array<byte>, offset: nat) returns (r: Result<nat>)
    modifies encoded
    ensures Printed(old(encoded[..]), encoded[..], offset, BytesFormBytes(form, v), BytesFormSize(form, v), r)
  {
    var value: bytes;
    match form {
      case ConstantBytes(c, omit) =>
        if !omit {
          if !v.BytesV? {
            return Err(TypeFault);
          }
          var check := CheckUint8ArrayDeeplyEqual(c, v.b);
          if check.Err? {
            return Err(check.error);
          }
        }
        value := c;
      case ConstantBytesAs(from, _) =>
        value := from;
      case SizedBytes(size, conv) =>
        var stored := StoredBytes(conv, v);
        if stored.Err? {
          return Err(stored.error);
        }
        if |stored.value| != size {
          return Err(SizeMismatch);
        }
        value := stored.value;
      case PrefixedBytes(lengthSize, conv) =>
        var stored := StoredBytes(conv, v);
        if stored.Err? {
          return Err(stored.error);
        }
        value := stored.value;
        if lengthSize.Some? {
          r := SerializePrefixed(lengthSize.value, value, encoded, offset);
          return;
        }
    }
    r := SetBytes(encoded, value, offset);
  }

  method SerializePrefixed(lengthSize: NumberSize, value: bytes, encoded: array<byte>, offset: nat)
    returns (r: Result<nat>)
    modifies encoded
    ensures Printed(old(encoded[..]), encoded[..], offset,
                    Concat(UintBytes(Num(|value|), lengthSize), Ok(value)), Ok(lengthSize + |value|), r)
  {
    ghost var before := encoded[..];
    var prefix := SerializeUint(encoded, offset, Num(|value|), lengthSize);
    if prefix.Err? {
      return Err(prefix.error);
    }
    OverlayTwice(before, offset, UintBytes(Num(|value|), lengthSize).value, value);
    r := SetBytes(encoded, value, prefix.value);
  }

  method SerializeItem(item: Item, v: Value, encoded: array<byte>, offset: nat) returns (r: Result<nat>)
    modifies encoded
    ensures Printed(old(encoded[..]), encoded[..], offset, ItemBytes(item, v), ItemSize(item, v), r)
    decreases item, 0, 0
  {
    match item {
      case ObjectItem(_, layout) =>
        r := SerializeInto(layout, v, encoded, offset);
      case ArrayItem(_, lengthSize, layout) =>
        if !v.ListV? {
          return Err(TypeFault);
        }
        ghost var before := encoded[..];
        var at := offset;
        if lengthSize.Some? {
          var length := SerializeUint(encoded, offset, Num(|v.elems|), lengthSize.value);
          if length.Err? {
            return Err(length.error);
          }
          at := length.value;
        }
        ghost var prefix := PrefixBytes(lengthSize, |v.elems|).value;
        assert lengthSize.None? ==> Overlay(before, offset, prefix) == before;
        r := SerializeElems(layout, v.elems, encoded, at, before, offset, prefix);
      case BytesItem(_, form) =>
        r := SerializeBytesForm(form, v, encoded, offset);
      case UintItem(_, size, custom) =>
        var value := StoredUint(custom, v);
        if value.Err? {
          return Err(value.error);
        }
        r := SerializeUint(encoded, offset, value.value, size);
    }
  }

  method SerializeField(item: Item, data: Value, encoded: array<byte>, offset: nat) returns (r: Result<nat>)
    modifies encoded
    ensures Printed(old(encoded[..]), encoded[..], offset, FieldBytes(item, data), FieldSize(item, data), r)
    decreases item, 1, 0
  {
    var v := Field(data, item.name);
    if v.Err? {
      return Err(v.error);
    }
    if !SizeNeedsData(item) {
      SizeOfUndefined(item, v.value);
    }
    r := SerializeItem(item, v.value, encoded, offset);
  }

  /** The loop over the elements of an array; `prefix` is what the array item has printed before. */
  method SerializeElems(layout: Layout, elems: seq<Value>, encoded: array<byte>, offset: nat,
                        ghost before: bytes, ghost start: nat, ghost prefix: bytes) returns (r: Result<nat>)
    requires offset == start + |prefix|
    requires encoded[..] == Overlay(before, start, prefix)
    modifies encoded
    ensures Printed(before, encoded[..], start, Prepend(prefix, ElemsBytes(layout, elems)),
                    AddSize(|prefix|, ElemsSize(layout, elems)), r)
    decreases layout, 1, 0
  {
    var at := offset;
    ghost var done := prefix;
    assert elems[0..] == elems;
    ghost var spec, size := Prepend(prefix, ElemsBytes(layout, elems)), AddSize(|prefix|, ElemsSize(layout, elems));
    for i := 0 to |elems|
      invariant Printing(before, encoded[..], start, done, at, spec, size,
                         ElemsBytes(layout, elems[i..]), ElemsSize(layout, elems[i..]))
    {
      ghost var elem := LayoutBytes(layout, elems[i]);
      ghost var mid := encoded[..];
      assert elems[i..][1..] == elems[i + 1..];
      if elem.Ok? {
        SizeOfLayoutBytes(layout, elems[i]);
      }
      var next := SerializeInto(layout, elems[i], encoded, at);
      PrintedNext(before, mid, encoded[..], start, done, elem, LayoutSize(layout, elems[i]),
                  ElemsBytes(layout, elems[i + 1..]), ElemsSize(layout, elems[i + 1..]), next);
      if next.Err? {
        return next;
      }
      done := done + elem.value;
      at := next.value;
    }
    AllPrinted(before, encoded[..], start, done, at, spec, size);
    return Ok(at);
  }

  /** The loop of serializeLayout, for a buffer given by the caller. */
  method SerializeInto(layout: Layout, data: Value, encoded: array<byte>, offset: nat) returns (r: Result<nat>)
    modifies encoded
    ensures Printed(old(encoded[..]), encoded[..], offset, LayoutBytes(layout, data), LayoutSize(layout, data), r)
    decreases layout, 0, 0
  {
    ghost var before := encoded[..];
    var at := offset;
    ghost var done: bytes := [];
    ghost var spec, size := LayoutBytes(layout, data), LayoutSize(layout, data);
    NothingPrinted(before, offset, spec, size);
    assert layout[0..] == layout;
    for i := 0 to |layout|
      invariant Printing(before, encoded[..], offset, done, at, spec, size,
                         LayoutBytes(layout[i..], data), LayoutSize(layout[i..], data))
    {
      UnfoldAt(layout, data, i);
      ghost var item := FieldBytes(layout[i], data);
      ghost var mid := encoded[..];
      var next := SerializeField(layout[i], data, encoded, at);
      PrintedNext(before, mid, encoded[..], offset, done, item, FieldSize(layout[i], data),
                  LayoutBytes(layout[i + 1..], data), LayoutSize(layout[i + 1..], data), next);
      if next.Err? {
        return next;
      }
      done := done + item.value;
      at := next.value;
    }
    AllPrinted(before, encoded[..], offset, done, at, spec, size);
    return Ok(at);
  }

  /** serializeLayout without a buffer: allocates exactly the computed size and fills all of it. */
  method SerializeLayout(layout: Layout, data: Value) returns (r: Result<bytes>)
    ensures LayoutSize(layout, data).Ok? ==> r == LayoutBytes(layout, data)
    ensures LayoutSize(layout, data).Err? ==> r == Err(LayoutSize(layout, data).error) && LayoutBytes(layout, data).Err?
  {
    if LayoutBytes(layout, data).Ok? {
      SizeOfLayoutBytes(layout, data);
    }
    var size := LayoutSize(layout, data);
    if size.Err? {
      return Err(size.error);
    }
    var encoded := new byte[size.value](_ => 0);
    ghost var blank := encoded[..];
    var end := SerializeInto(layout, data, encoded, 0);
    if end.Err? {
      return Err(end.error);
    }
    OverlayAll(blank, LayoutBytes(layout, data).value);
    return Ok(encoded[..]);
  }
}
