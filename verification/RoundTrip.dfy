// The law at the centre of the layout engine: parser and printer undo each other.
module RoundTrip {
  import opened Common
  import opened BigEndian
  import opened Layouts
  import opened Serialize
  import opened Deserialize
  import opened LayoutMeta

  // ---- decoding what was encoded ----------------------------------------------------------

  /** Items that consume the data up to its end. */
  predicate OpenEnded(item: Item)
    decreases item
  {
    || (item.BytesItem? && item.form.PrefixedBytes? && item.form.lengthSize.None?)
    || (item.ArrayItem? && item.lengthSize.None?)
    || (item.ObjectItem? && LayoutOpenEnded(item.layout))
  }

  predicate LayoutOpenEnded(layout: Layout)
    decreases layout
  {
    |layout| > 0 && (OpenEnded(layout[0]) || LayoutOpenEnded(layout[1..]))
  }

  /**
   * Open-ended items come last and never inside array elements, and the elements of an array without
   * a length prefix take up at least one byte.
   */
  predicate Delimited(layout: Layout)
    decreases layout
  {
    |layout| > 0 ==>
      && ItemDelimited(layout[0])
      && (OpenEnded(layout[0]) ==> |layout| == 1)
      && Delimited(layout[1..])
  }

  predicate ItemDelimited(item: Item)
    decreases item
  {
    match item
    case ArrayItem(_, lengthSize, layout) =>
      && Delimited(layout) && !LayoutOpenEnded(layout)
      && (lengthSize.None? ==> LayoutBounds(layout).lower > 0)
    case ObjectItem(_, layout) => Delimited(layout)
    case _ => true
  }

  /** The names that appear in the decoded record. */
  function Names(layout: Layout): set<string> {
    if |layout| == 0 then {}
    else (if layout[0].Omitted() then {} else {layout[0].name}) + Names(layout[1..])
  }

  predicate UintConforms(custom: UintCustom, size: nat, v: Value) {
    match custom
    case PlainUint => v.UintV? && (if size > NUMBER_MAX_SIZE then v.u.Big? else v.u.Num?)
    case ConstantUint(c, _) => v == UintV(c)
    case ConstantUintAs(_, to) => v == to
    case ConvertedUint(conv) =>
      conv.from(v).Some? ==>
        && (if size > NUMBER_MAX_SIZE then conv.from(v).value.Big? else conv.from(v).value.Num?)
        && conv.to(conv.from(v).value) == Some(v)
  }

  predicate DynamicBytesConform(conv: Option<BytesConversion>, v: Value) {
    match conv
    case None => v.BytesV?
    case Some(c) => c.from(v).Some? ==> c.to(c.from(v).value) == Some(v)
  }

  predicate BytesConform(form: BytesForm, v: Value) {
    match form
    case ConstantBytes(c, _) => v == BytesV(c)
    case ConstantBytesAs(from, to) => v == if to.Undefined? || to.Null? then BytesV(from) else to
    case SizedBytes(_, conv) => DynamicBytesConform(conv, v)
    case PrefixedBytes(_, conv) => DynamicBytesConform(conv, v)
  }

  /**
   * `v` has the type that TypeScript derives for `item` - a number or a bigint as the size demands,
   * the constant where there is one - and custom conversions are lossless on it.
   */
  predicate ItemConforms(item: Item, v: Value)
    decreases item, 0
  {
    match item
    case UintItem(_, size, custom) => UintConforms(custom, size, v)
    case BytesItem(_, form) => BytesConform(form, v)
    case ArrayItem(_, _, layout) =>
      v.ListV? && forall e <- v.elems :: e.RecordV? && e.fields.Keys == Names(layout) && Carries(layout, e.fields)
    case ObjectItem(_, layout) => v.RecordV? && v.fields.Keys == Names(layout) && Carries(layout, v.fields)
  }

  /** The record `fields` has a conforming value for every item that is not omitted. */
  predicate Carries(layout: Layout, fields: Fields)
    decreases layout, 1
  {
    |layout| > 0 ==>
      && (!layout[0].Omitted() ==> layout[0].name in fields && ItemConforms(layout[0], fields[layout[0].name]))
      && Carries(layout[1..], fields)
  }

  predicate Conforms(layout: Layout, data: Value) {
    data.RecordV? && data.fields.Keys == Names(layout) && Carries(layout, data.fields)
  }

  /** `bs` are the bytes of `encoded` from `offset` on; all of them if `open`. */
  predicate At(bs: bytes, encoded: bytes, offset: nat, open: bool) {
    && offset + |bs| <= |encoded|
    && encoded[offset..offset + |bs|] == bs
    && (open ==> offset + |bs| == |encoded|)
  }

  lemma AtSplit(a: bytes, b: bytes, encoded: bytes, offset: nat, open: bool)
    requires At(a + b, encoded, offset, open)
    ensures At(a, encoded, offset, false) && At(b, encoded, offset + |a|, open)
  {
    assert (a + b)[..|a|] == a && (a + b)[|a|..] == b;
    assert encoded[offset..offset + |a|] == encoded[offset..offset + |a + b|][..|a|];
    assert encoded[offset + |a|..offset + |a| + |b|] == encoded[offset..offset + |a + b|][|a|..];
  }

  lemma UintDecodes(u: Uint, size: nat, bs: bytes, encoded: bytes, offset: nat)
    requires UintBytes(u, size) == Ok(bs) && At(bs, encoded, offset, false)
    ensures !u.Fractional? && u.n >= 0
    ensures ParseUint(encoded, offset, size) == Ok(Parsed(u.n, offset + |bs|))
  {
    assert |bs| == size && encoded[offset..offset + size] == bs;
    NumberOfDigits(u.n, size);
  }

  /** The number stored for a value is loaded as that value. */
  lemma StoredUintLoads(custom: UintCustom, size: nat, v: Value, omitted: bool)
    requires StoredUint(custom, v).Ok? && UintBytes(StoredUint(custom, v).value, size).Ok?
    requires omitted ==> custom.ConstantUint?
    requires !omitted ==> UintConforms(custom, size, v)
    ensures LoadedUint(custom, size, StoredUint(custom, v).value.n).Ok?
    ensures !omitted ==> LoadedUint(custom, size, StoredUint(custom, v).value.n).value == v
  {
    match custom
    case PlainUint =>
    case ConstantUint(_, _) =>
    case ConstantUintAs(_, _) =>
    case ConvertedUint(conv) =>
      assert conv.from(v) == Some(ToUint(StoredUint(custom, v).value.n, size));
  }

  lemma UintItemDecodes(item: Item, v: Value, bs: bytes, encoded: bytes, offset: nat)
    requires item.UintItem?
    requires ItemBytes(item, v) == Ok(bs) && (!item.Omitted() ==> ItemConforms(item, v))
    requires At(bs, encoded, offset, false)
    ensures ParseItem(item, encoded, offset).Ok?
    ensures ParseItem(item, encoded, offset).value.offset == offset + |bs|
    ensures !item.Omitted() ==> ParseItem(item, encoded, offset).value.value == v
  {
    var u := StoredUint(item.custom, v).value;
    StoredUintLoads(item.custom, item.size, v, item.Omitted());
    UintDecodes(u, item.size, bs, encoded, offset);
  }

  lemma BytesItemDecodes(item: Item, v: Value, bs: bytes, encoded: bytes, offset: nat)
    requires item.BytesItem?
    requires ItemBytes(item, v) == Ok(bs) && (!item.Omitted() ==> ItemConforms(item, v))
    requires At(bs, encoded, offset, OpenEnded(item))
    ensures ParseItem(item, encoded, offset).Ok?
    ensures ParseItem(item, encoded, offset).value.offset == offset + |bs|
    ensures !item.Omitted() ==> ParseItem(item, encoded, offset).value.value == v
  {
    match item.form
    case ConstantBytes(c, _) => ConstantDecodes(c, BytesV(c), encoded, offset);
    case ConstantBytesAs(from, to) => ConstantDecodes(from, ConstantValue(from, to), encoded, offset);
    case SizedBytes(_, _) => DynamicBytesDecode(item.form, v, bs, encoded, offset);
    case PrefixedBytes(None, _) => DynamicBytesDecode(item.form, v, bs, encoded, offset);
    case PrefixedBytes(Some(n), conv) => PrefixedBytesDecode(n, conv, v, bs, encoded, offset);
  }

  lemma DynamicBytesDecode(form: BytesForm, v: Value, bs: bytes, encoded: bytes, offset: nat)
    requires form.SizedBytes? || (form.PrefixedBytes? && form.lengthSize.None?)
    requires BytesFormBytes(form, v) == Ok(bs) && BytesConform(form, v)
    requires At(bs, encoded, offset, form.PrefixedBytes?)
    ensures ParseBytes(form, encoded, offset) == Ok(Parsed(v, offset + |bs|))
  {
    if form.PrefixedBytes? {
      assert encoded[offset..] == bs;
    }
  }

  lemma PrefixedBytesDecode(n: NumberSize, conv: Option<BytesConversion>, v: Value, bs: bytes, encoded: bytes, offset: nat)
    requires BytesFormBytes(PrefixedBytes(Some(n), conv), v) == Ok(bs) && DynamicBytesConform(conv, v)
    requires At(bs, encoded, offset, false)
    ensures ParseBytes(PrefixedBytes(Some(n), conv), encoded, offset) == Ok(Parsed(v, offset + |bs|))
  {
    PrefixDecodes(n, StoredBytes(conv, v).value, encoded, offset);
  }

  /** Data that carries the constant of a fixed conversion decodes to what the conversion gives for it. */
  lemma FixedConversionDecodes(item: Item, encoded: bytes, offset: nat)
    ensures item.UintItem? && item.custom.ConstantUintAs? && UintBytes(item.custom.from, item.size).Ok?
            && At(UintBytes(item.custom.from, item.size).value, encoded, offset, false) ==>
              ParseItem(item, encoded, offset) == Ok(Parsed(item.custom.to, offset + item.size))
    ensures item.BytesItem? && item.form.ConstantBytesAs? && At(item.form.from, encoded, offset, false)
            && !item.form.to.Undefined? && !item.form.to.Null? ==>
              ParseItem(item, encoded, offset) == Ok(Parsed(item.form.to, offset + |item.form.from|))
  {
    if item.UintItem? && item.custom.ConstantUintAs? && UintBytes(item.custom.from, item.size).Ok? {
      if At(UintBytes(item.custom.from, item.size).value, encoded, offset, false) {
        UintDecodes(item.custom.from, item.size, UintBytes(item.custom.from, item.size).value, encoded, offset);
      }
    }
  }

  /** A constant shows up in the decoded record just if it is not to be omitted. */
  lemma ConstantShowsUnlessOmitted(item: Item, encoded: bytes, offset: nat)
    requires ParseLayout([item], encoded, offset).Ok?
    ensures item.UintItem? && item.custom.ConstantUint? ==>
              ParseLayout([item], encoded, offset).value.value ==
                if item.custom.omit then map[] else map[item.name := UintV(item.custom.value)]
    ensures item.BytesItem? && item.form.ConstantBytes? ==>
              ParseLayout([item], encoded, offset).value.value ==
                if item.form.omit then map[] else map[item.name := BytesV(item.form.value)]
  {
    assert [item][1..] == [];
  }

  lemma ConstantDecodes(c: bytes, to: Value, encoded: bytes, offset: nat)
    requires At(c, encoded, offset, false)
    ensures ParseConstantBytes(c, to, encoded, offset) == Ok(Parsed(to, offset + |c|))
  {
  }

  lemma PrefixDecodes(n: NumberSize, b: bytes, encoded: bytes, offset: nat)
    requires UintBytes(Num(|b|), n).Ok? && At(UintBytes(Num(|b|), n).value + b, encoded, offset, false)
    ensures ParseUint(encoded, offset, n) == Ok(Parsed(|b|, offset + n))
    ensures UpdateOffset(encoded, offset + n, |b|) == Ok(offset + n + |b|)
    ensures encoded[offset + n..offset + n + |b|] == b
  {
    var prefix := UintBytes(Num(|b|), n).value;
    AtSplit(prefix, b, encoded, offset, false);
    UintDecodes(Num(|b|), n, prefix, encoded, offset);
  }

  /** An item decodes to the value it was printed from, stopping exactly at the end of its bytes. */
  lemma {:induction false} ItemDecodes(item: Item, v: Value, bs: bytes, encoded: bytes, offset: nat)
    requires ItemDelimited(item)
    requires ItemBytes(item, v) == Ok(bs) && (!item.Omitted() ==> ItemConforms(item, v))
    requires At(bs, encoded, offset, OpenEnded(item))
    ensures ParseItem(item, encoded, offset).Ok?
    ensures ParseItem(item, encoded, offset).value.offset == offset + |bs|
    ensures !item.Omitted() ==> ParseItem(item, encoded, offset).value.value == v
    decreases item, 1, 0
  {
    match item
    case UintItem(_, _, _) => UintItemDecodes(item, v, bs, encoded, offset);
    case BytesItem(_, _) => BytesItemDecodes(item, v, bs, encoded, offset);
    case ObjectItem(_, layout) => RecordDecodes(layout, v, bs, encoded, offset);
    case ArrayItem(_, _, _) => ArrayItemDecodes(item, v, bs, encoded, offset);
  }

  lemma {:induction false} ArrayItemDecodes(item: Item, v: Value, bs: bytes, encoded: bytes, offset: nat)
    requires item.ArrayItem? && ItemDelimited(item)
    requires ItemBytes(item, v) == Ok(bs) && ItemConforms(item, v)
    requires At(bs, encoded, offset, OpenEnded(item))
    ensures ParseItem(item, encoded, offset) == Ok(Parsed(v, offset + |bs|))
    decreases item, 0, 0
  {
    match item.lengthSize
    case None =>
      assert ElemsBytes(item.layout, v.elems) == Ok(bs) by {
        var body := ElemsBytes(item.layout, v.elems).value;
        assert [] + body == body;
      }
      ToEndDecodes(item.layout, v.elems, bs, encoded, offset);
    case Some(n) => CountedElemsDecode(n, item.layout, v.elems, bs, encoded, offset);
  }

  lemma {:induction false} CountedElemsDecode(n: NumberSize, layout: Layout, elems: seq<Value>, bs: bytes, encoded: bytes, offset: nat)
    requires Delimited(layout) && !LayoutOpenEnded(layout) && ElemsConform(layout, elems)
    requires UintBytes(Num(|elems|), n).Ok? && ElemsBytes(layout, elems).Ok?
    requires bs == UintBytes(Num(|elems|), n).value + ElemsBytes(layout, elems).value && At(bs, encoded, offset, false)
    ensures ParseUint(encoded, offset, n).Ok?
    ensures var length := ParseUint(encoded, offset, n).value;
            ParseElems(layout, encoded, length.offset, length.value) == Ok(Parsed(elems, offset + |bs|))
    decreases layout, 2, 0
  {
    var prefix, body := UintBytes(Num(|elems|), n).value, ElemsBytes(layout, elems).value;
    LengthDecodes(n, |elems|, prefix, body, encoded, offset);
    ElemsDecode(layout, elems, body, encoded, offset + |prefix|);
  }

  lemma LengthDecodes(n: NumberSize, length: nat, prefix: bytes, body: bytes, encoded: bytes, offset: nat)
    requires UintBytes(Num(length), n) == Ok(prefix) && At(prefix + body, encoded, offset, false)
    ensures ParseUint(encoded, offset, n) == Ok(Parsed(length, offset + |prefix|))
    ensures At(body, encoded, offset + |prefix|, false)
  {
    AtSplit(prefix, body, encoded, offset, false);
    UintDecodes(Num(length), n, prefix, encoded, offset);
  }

  function Restrict(fields: Fields, names: set<string>): Fields {
    map name | name in fields && name in names :: fields[name]
  }

  lemma OnlyNames(fields: Fields, layout: Layout)
    requires fields.Keys == Names(layout)
    ensures Restrict(fields, Names(layout)) == fields
  {
  }

  /** The first item decodes, and the bytes of the others follow. */
  lemma {:induction false} HeadDecodes(layout: Layout, fields: Fields, v: Value, bs: bytes, encoded: bytes, offset: nat)
    returns (mid: nat, rest: bytes)
    requires |layout| > 0 && Delimited(layout) && Carries(layout, fields) && Field(RecordV(fields), layout[0].name) == Ok(v)
    requires LayoutBytes(layout, RecordV(fields)) == Ok(bs)
    requires At(bs, encoded, offset, LayoutOpenEnded(layout))
    ensures ParseItem(layout[0], encoded, offset).Ok? && ParseItem(layout[0], encoded, offset).value.offset == mid
    ensures !layout[0].Omitted() ==> ParseItem(layout[0], encoded, offset).value.value == v
    ensures LayoutBytes(layout[1..], RecordV(fields)) == Ok(rest) && At(rest, encoded, mid, LayoutOpenEnded(layout[1..]))
    ensures mid + |rest| == offset + |bs|
    decreases layout, 0, 0
  {
    PrintsAsParts(layout, RecordV(fields), bs);
    var first := ItemBytes(layout[0], v).value;
    rest := LayoutBytes(layout[1..], RecordV(fields)).value;
    mid := offset + |first|;
    FirstAndRest(layout, first, rest, encoded, offset);
    ItemDecodes(layout[0], v, first, encoded, offset);
  }

  lemma {:induction false} LayoutDecodes(layout: Layout, fields: Fields, bs: bytes, encoded: bytes, offset: nat)
    requires Delimited(layout) && Carries(layout, fields)
    requires LayoutBytes(layout, RecordV(fields)) == Ok(bs)
    requires At(bs, encoded, offset, LayoutOpenEnded(layout))
    ensures ParseLayout(layout, encoded, offset) == Ok(Parsed(Restrict(fields, Names(layout)), offset + |bs|))
    decreases layout, 0, 1
  {
    if |layout| > 0 {
      var v := Field(RecordV(fields), layout[0].name).value;
      var mid, rest := HeadDecodes(layout, fields, v, bs, encoded, offset);
      LayoutDecodes(layout[1..], fields, rest, encoded, mid);
      FieldsParse(layout, fields, encoded, offset, v, mid, offset + |bs|);
    } else {
      assert Restrict(fields, {}) == map[];
    }
  }

  lemma PrintsAsParts(layout: Layout, data: Value, bs: bytes)
    requires |layout| > 0 && LayoutBytes(layout, data) == Ok(bs)
    ensures Field(data, layout[0].name).Ok? && ItemBytes(layout[0], Field(data, layout[0].name).value).Ok?
    ensures LayoutBytes(layout[1..], data).Ok?
    ensures var first, rest := ItemBytes(layout[0], Field(data, layout[0].name).value).value, LayoutBytes(layout[1..], data).value;
            bs == first + rest && (|layout| == 1 ==> rest == [])
  {
  }

  /** Only the last item may go on to the end of the data. */
  lemma FirstAndRest(layout: Layout, first: bytes, rest: bytes, encoded: bytes, offset: nat)
    requires |layout| > 0 && Delimited(layout) && (|layout| == 1 ==> rest == [])
    requires At(first + rest, encoded, offset, LayoutOpenEnded(layout))
    ensures At(first, encoded, offset, OpenEnded(layout[0]))
    ensures At(rest, encoded, offset + |first|, LayoutOpenEnded(layout[1..]))
  {
    AtSplit(first, rest, encoded, offset, LayoutOpenEnded(layout));
  }

  lemma ParsesOn(layout: Layout, encoded: bytes, offset: nat, v: Value, mid: nat, rest: Fields, end: nat)
    requires |layout| > 0 && ParseItem(layout[0], encoded, offset).Ok?
    requires ParseItem(layout[0], encoded, offset).value.offset == mid
    requires !layout[0].Omitted() ==> ParseItem(layout[0], encoded, offset).value.value == v
    requires ParseLayout(layout[1..], encoded, mid) == Ok(Parsed(rest, end))
    ensures ParseLayout(layout, encoded, offset) == Ok(Parsed(Assign(layout[0], v) + rest, end))
  {
  }

  lemma RestrictSplit(layout: Layout, fields: Fields, v: Value)
    requires |layout| > 0
    requires !layout[0].Omitted() ==> layout[0].name in fields && fields[layout[0].name] == v
    ensures Restrict(fields, Names(layout)) == Assign(layout[0], v) + Restrict(fields, Names(layout[1..]))
  {
  }

  lemma FieldsParse(layout: Layout, fields: Fields, encoded: bytes, offset: nat, v: Value, mid: nat, end: nat)
    requires |layout| > 0 && ParseItem(layout[0], encoded, offset).Ok?
    requires ParseItem(layout[0], encoded, offset).value.offset == mid
    requires !layout[0].Omitted() ==> ParseItem(layout[0], encoded, offset).value.value == v
    requires !layout[0].Omitted() ==> layout[0].name in fields && fields[layout[0].name] == v
    requires ParseLayout(layout[1..], encoded, mid) == Ok(Parsed(Restrict(fields, Names(layout[1..])), end))
    ensures ParseLayout(layout, encoded, offset) == Ok(Parsed(Restrict(fields, Names(layout)), end))
  {
    ParsesOn(layout, encoded, offset, v, mid, Restrict(fields, Names(layout[1..])), end);
    RestrictSplit(layout, fields, v);
  }

  lemma {:induction false} RecordDecodes(layout: Layout, v: Value, bs: bytes, encoded: bytes, offset: nat)
    requires Delimited(layout) && Conforms(layout, v)
    requires LayoutBytes(layout, v) == Ok(bs) && At(bs, encoded, offset, LayoutOpenEnded(layout))
    ensures ParseLayout(layout, encoded, offset) == Ok(Parsed(v.fields, offset + |bs|))
    decreases layout, 0, 2
  {
    LayoutDecodes(layout, v.fields, bs, encoded, offset);
    OnlyNames(v.fields, layout);
  }

  predicate ElemsConform(layout: Layout, elems: seq<Value>) {
    forall e <- elems :: Conforms(layout, e)
  }

  lemma PrintsAsElems(layout: Layout, elems: seq<Value>, bs: bytes)
    requires |elems| > 0 && ElemsConform(layout, elems) && ElemsBytes(layout, elems) == Ok(bs)
    ensures Conforms(layout, elems[0]) && ElemsConform(layout, elems[1..])
    ensures LayoutBytes(layout, elems[0]).Ok? && ElemsBytes(layout, elems[1..]).Ok?
    ensures bs == LayoutBytes(layout, elems[0]).value + ElemsBytes(layout, elems[1..]).value
  {
    assert elems[0] in elems;
    assert forall e <- elems[1..] :: e in elems;
  }

  lemma {:induction false} ElemsDecode(layout: Layout, elems: seq<Value>, bs: bytes, encoded: bytes, offset: nat)
    requires Delimited(layout) && !LayoutOpenEnded(layout) && ElemsConform(layout, elems)
    requires ElemsBytes(layout, elems) == Ok(bs) && At(bs, encoded, offset, false)
    ensures ParseElems(layout, encoded, offset, |elems|) == Ok(Parsed(elems, offset + |bs|))
    decreases layout, 1, |elems|
  {
    if |elems| > 0 {
      PrintsAsElems(layout, elems, bs);
      var first, rest := LayoutBytes(layout, elems[0]).value, ElemsBytes(layout, elems[1..]).value;
      AtSplit(first, rest, encoded, offset, false);
      RecordDecodes(layout, elems[0], first, encoded, offset);
      ElemsDecode(layout, elems[1..], rest, encoded, offset + |first|);
      var end := offset + |first| + |rest|;
      OneElemMore(layout, elems, encoded, offset, offset + |first|, end);
      assert end == offset + |bs|;
    }
  }

  lemma OneElemMore(layout: Layout, elems: seq<Value>, encoded: bytes, offset: nat, mid: nat, end: nat)
    requires |elems| > 0 && elems[0].RecordV?
    requires ParseLayout(layout, encoded, offset) == Ok(Parsed(elems[0].fields, mid))
    requires ParseElems(layout, encoded, mid, |elems| - 1) == Ok(Parsed(elems[1..], end))
    ensures ParseElems(layout, encoded, offset, |elems|) == Ok(Parsed(elems, end))
  {
    assert [RecordV(elems[0].fields)] + elems[1..] == elems;
  }

  lemma {:induction false} ToEndDecodes(layout: Layout, elems: seq<Value>, bs: bytes, encoded: bytes, offset: nat)
    requires Delimited(layout) && !LayoutOpenEnded(layout) && LayoutBounds(layout).lower > 0
    requires ElemsConform(layout, elems)
    requires ElemsBytes(layout, elems) == Ok(bs) && At(bs, encoded, offset, true)
    ensures ParseToEnd(layout, encoded, offset) == Ok(Parsed(elems, offset + |bs|))
    decreases layout, 1, |elems|
  {
    if |elems| > 0 {
      PrintsAsElems(layout, elems, bs);
      var first, rest := LayoutBytes(layout, elems[0]).value, ElemsBytes(layout, elems[1..]).value;
      AtSplit(first, rest, encoded, offset, true);
      BoundsHold(layout, elems[0]);
      RecordDecodes(layout, elems[0], first, encoded, offset);
      ToEndDecodes(layout, elems[1..], rest, encoded, offset + |first|);
      var end := offset + |first| + |rest|;
      OneElemMoreToEnd(layout, elems, encoded, offset, offset + |first|, end);
      assert end == offset + |bs|;
    }
  }

  lemma OneElemMoreToEnd(layout: Layout, elems: seq<Value>, encoded: bytes, offset: nat, mid: nat, end: nat)
    requires |elems| > 0 && elems[0].RecordV? && offset < mid <= |encoded|
    requires ParseLayout(layout, encoded, offset) == Ok(Parsed(elems[0].fields, mid))
    requires ParseToEnd(layout, encoded, mid) == Ok(Parsed(elems[1..], end))
    ensures ParseToEnd(layout, encoded, offset) == Ok(Parsed(elems, end))
  {
    assert [RecordV(elems[0].fields)] + elems[1..] == elems;
  }

  /**
   * Decode undoes encode: at any offset, with any bytes before and - unless the layout is open-ended -
   * after, deserializing finds the data that was serialized and stops exactly where it ends.
   */
  lemma DecodeUndoesEncode(layout: Layout, data: Value, before: bytes, after: bytes)
    requires Delimited(layout) && Conforms(layout, data)
    requires LayoutBytes(layout, data).Ok?
    requires LayoutOpenEnded(layout) ==> after == []
    ensures var bs := LayoutBytes(layout, data).value;
            ParseLayout(layout, before + bs + after, |before|) == Ok(Parsed(data.fields, |before| + |bs|))
  {
    var bs := LayoutBytes(layout, data).value;
    var encoded := before + bs + after;
    assert encoded[|before|..|before| + |bs|] == bs;
    RecordDecodes(layout, data, bs, encoded, |before|);
  }

  /** ... in particular with consumeAll, on the serialization alone. */
  lemma DecodeAllUndoesEncode(layout: Layout, data: Value)
    requires Delimited(layout) && Conforms(layout, data)
    requires LayoutBytes(layout, data).Ok?
    ensures ParseAll(layout, LayoutBytes(layout, data).value, 0) == Ok(data)
  {
    var bs := LayoutBytes(layout, data).value;
    assert [] + bs + [] == bs;
    DecodeUndoesEncode(layout, data, [], []);
  }

  // ---- encoding what was decoded ----------------------------------------------------------

  /** No two items of a record, nor of any record below it, share a name. */
  predicate DistinctNames(layout: Layout)
    decreases layout
  {
    |layout| > 0 ==>
      && (!layout[0].Omitted() ==> layout[0].name !in Names(layout[1..]))
      && (layout[0].ArrayItem? || layout[0].ObjectItem? ==> DistinctNames(layout[0].layout))
      && DistinctNames(layout[1..])
  }

  ghost predicate UintLossless(custom: UintCustom, size: nat) {
    match custom
    case PlainUint => true
    // a constant of type `number` fits a `number` (larger ones have type `bigint`)
    case ConstantUint(c, _) => size > NUMBER_MAX_SIZE && c.Num? ==> c.n < Pow256(NUMBER_MAX_SIZE)
    case ConstantUintAs(from, _) => size > NUMBER_MAX_SIZE && from.Num? ==> from.n < Pow256(NUMBER_MAX_SIZE)
    case ConvertedUint(conv) =>
      forall n: nat ::
        var u := ToUint(n, size);
        conv.to(u).Some? ==> conv.from(conv.to(u).value) == Some(u)
  }

  ghost predicate BytesLossless(conv: Option<BytesConversion>) {
    conv.Some? ==> forall b: bytes :: conv.value.to(b).Some? ==> conv.value.from(conv.value.to(b).value) == Some(b)
  }

  /** Custom conversions give back exactly what they were given. */
  ghost predicate Lossless(layout: Layout)
    decreases layout, 1
  {
    |layout| > 0 ==> ItemLossless(layout[0]) && Lossless(layout[1..])
  }

  ghost predicate ItemLossless(item: Item)
    decreases item, 0
  {
    match item
    case UintItem(_, size, custom) => UintLossless(custom, size)
    case BytesItem(_, SizedBytes(_, conv)) => BytesLossless(conv)
    case BytesItem(_, PrefixedBytes(_, conv)) => BytesLossless(conv)
    case BytesItem(_, _) => true
    case ArrayItem(_, _, layout) => Lossless(layout)
    case ObjectItem(_, layout) => Lossless(layout)
  }

  lemma {:induction false} DecodedNames(layout: Layout, encoded: bytes, offset: nat)
    requires ParseLayout(layout, encoded, offset).Ok?
    ensures ParseLayout(layout, encoded, offset).value.value.Keys == Names(layout)
    decreases layout
  {
    if |layout| > 0 {
      DecodedNames(layout[1..], encoded, ParseItem(layout[0], encoded, offset).value.offset);
    }
  }

  /** What a parser at `offset` that ended at `end` should have printed. */
  predicate Reprints(spec: Result<bytes>, encoded: bytes, offset: nat, end: nat) {
    offset <= end <= |encoded| && spec == Ok(encoded[offset..end])
  }

  lemma UintReprints(encoded: bytes, offset: nat, size: nat, u: Uint)
    requires ParseUint(encoded, offset, size).Ok?
    requires !u.Fractional? && u.n == ParseUint(encoded, offset, size).value.value
    requires size > NUMBER_MAX_SIZE && u.Num? ==> u.n < Pow256(NUMBER_MAX_SIZE)
    ensures Reprints(UintBytes(u, size), encoded, offset, offset + size)
  {
    DigitsOfNumber(encoded[offset..offset + size]);
  }

  lemma UintItemReprints(item: Item, encoded: bytes, offset: nat)
    requires item.UintItem? && ItemLossless(item)
    requires ParseItem(item, encoded, offset).Ok?
    ensures var p := ParseItem(item, encoded, offset).value;
            Reprints(ItemBytes(item, p.value), encoded, offset, p.offset)
  {
    var n := ParseUint(encoded, offset, item.size).value.value;
    var v := ParseItem(item, encoded, offset).value.value;
    if item.custom.ConvertedUint? {
      assert item.custom.conv.to(ToUint(n, item.size)) == Some(v);
    }
    UintReprints(encoded, offset, item.size, StoredUint(item.custom, v).value);
  }

  lemma BytesItemReprints(item: Item, encoded: bytes, offset: nat)
    requires item.BytesItem? && ItemLossless(item) && offset <= |encoded|
    requires ParseItem(item, encoded, offset).Ok?
    ensures var p := ParseItem(item, encoded, offset).value;
            Reprints(ItemBytes(item, p.value), encoded, offset, p.offset)
  {
    var p := ParseItem(item, encoded, offset).value;
    match item.form
    case ConstantBytes(_, _) =>
    case ConstantBytesAs(_, _) =>
    case SizedBytes(_, _) =>
    case PrefixedBytes(None, _) => assert encoded[offset..] == encoded[offset..p.offset];
    case PrefixedBytes(Some(n), _) => PrefixReprints(n, encoded, offset, p.offset);
  }

  lemma PrefixReprints(n: NumberSize, encoded: bytes, offset: nat, end: nat)
    requires ParseUint(encoded, offset, n).Ok? && offset + n <= end <= |encoded|
    ensures var length := ParseUint(encoded, offset, n).value.value;
            Concat(UintBytes(Num(length), n), Ok(encoded[offset + n..end])) == Ok(encoded[offset..end])
  {
    UintReprints(encoded, offset, n, Num(ParseUint(encoded, offset, n).value.value));
    assert encoded[offset..offset + n] + encoded[offset + n..end] == encoded[offset..end];
  }

  /** An accepted item prints as exactly the bytes it was read from. */
  lemma {:induction false} ItemReprints(item: Item, encoded: bytes, offset: nat)
    requires ItemLossless(item) && (item.ArrayItem? || item.ObjectItem? ==> DistinctNames(item.layout))
    requires offset <= |encoded| && ParseItem(item, encoded, offset).Ok?
    ensures var p := ParseItem(item, encoded, offset).value;
            Reprints(ItemBytes(item, p.value), encoded, offset, p.offset)
    decreases item, 0, 0
  {
    match item
    case UintItem(_, _, _) => UintItemReprints(item, encoded, offset);
    case BytesItem(_, _) => BytesItemReprints(item, encoded, offset);
    case ObjectItem(_, layout) => LayoutReprints(layout, encoded, offset);
    case ArrayItem(_, None, layout) =>
      ToEndReprints(layout, encoded, offset);
      var p := ParseToEnd(layout, encoded, offset).value;
      assert [] + encoded[offset..p.offset] == encoded[offset..p.offset];
    case ArrayItem(_, Some(n), layout) =>
      var length := ParseUint(encoded, offset, n).value;
      ElemsReprint(layout, encoded, length.offset, length.value);
      PrefixReprints(n, encoded, offset, ParseElems(layout, encoded, length.offset, length.value).value.offset);
  }

  lemma {:induction false} LayoutReprints(layout: Layout, encoded: bytes, offset: nat)
    requires Lossless(layout) && DistinctNames(layout)
    requires offset <= |encoded| && ParseLayout(layout, encoded, offset).Ok?
    ensures var p := ParseLayout(layout, encoded, offset).value;
            Reprints(LayoutBytes(layout, RecordV(p.value)), encoded, offset, p.offset)
    decreases layout, 0, 1
  {
    var fields := ParseLayout(layout, encoded, offset).value.value;
    DecodedNames(layout, encoded, offset);
    OnlyNames(fields, layout);
    FieldsReprint(layout, encoded, offset, fields);
  }

  /** ... also from a larger record, of which the rest of the layout reads only its own names. */
  lemma {:induction false} FieldsReprint(layout: Layout, encoded: bytes, offset: nat, fields: Fields)
    requires Lossless(layout) && DistinctNames(layout)
    requires offset <= |encoded| && ParseLayout(layout, encoded, offset).Ok?
    requires Restrict(fields, Names(layout)) == ParseLayout(layout, encoded, offset).value.value
    ensures Reprints(LayoutBytes(layout, RecordV(fields)), encoded, offset, ParseLayout(layout, encoded, offset).value.offset)
    decreases layout, 0, 0
  {
    if |layout| == 0 {
      assert encoded[offset..offset] == [];
    } else {
      var item := layout[0];
      var first := ParseItem(item, encoded, offset).value;
      var rest := ParseLayout(layout[1..], encoded, first.offset).value;
      ItemReprints(item, encoded, offset);
      DecodedNames(layout[1..], encoded, first.offset);
      HeadAndRest(item, layout, first.value, rest.value, fields);
      FieldsReprint(layout[1..], encoded, first.offset, fields);
      assert FieldBytes(item, RecordV(fields)) == Ok(encoded[offset..first.offset]);
      assert LayoutBytes(layout[1..], RecordV(fields)) == Ok(encoded[first.offset..rest.offset]);
      SliceJoins(encoded, offset, first.offset, rest.offset);
    }
  }

  lemma SliceJoins(encoded: bytes, a: nat, b: nat, c: nat)
    requires a <= b <= c <= |encoded|
    ensures encoded[a..b] + encoded[b..c] == encoded[a..c]
  {
  }

  lemma HeadAndRest(item: Item, layout: Layout, v: Value, rest: Fields, fields: Fields)
    requires |layout| > 0 && item == layout[0] && DistinctNames(layout)
    requires rest.Keys == Names(layout[1..])
    requires Restrict(fields, Names(layout)) == Assign(item, v) + rest
    ensures Restrict(fields, Names(layout[1..])) == rest
    ensures ItemBytes(item, Field(RecordV(fields), item.name).value) == ItemBytes(item, v)
  {
    var all := Restrict(fields, Names(layout));
    assert forall name <- rest :: name in all && all[name] == rest[name] && fields[name] == all[name];
    if !item.Omitted() {
      assert item.name in all && all[item.name] == v && fields[item.name] == v;
    }
  }

  lemma {:induction false} ElemsReprint(layout: Layout, encoded: bytes, offset: nat, count: nat)
    requires Lossless(layout) && DistinctNames(layout)
    requires offset <= |encoded| && ParseElems(layout, encoded, offset, count).Ok?
    ensures var p := ParseElems(layout, encoded, offset, count).value;
            |p.value| == count && Reprints(ElemsBytes(layout, p.value), encoded, offset, p.offset)
    decreases layout, 1, count
  {
    if count == 0 {
      assert encoded[offset..offset] == [];
    } else {
      var first := ParseLayout(layout, encoded, offset).value;
      LayoutReprints(layout, encoded, offset);
      ElemsReprint(layout, encoded, first.offset, count - 1);
      var rest := ParseElems(layout, encoded, first.offset, count - 1).value;
      assert ([RecordV(first.value)] + rest.value)[1..] == rest.value;
      assert encoded[offset..first.offset] + encoded[first.offset..rest.offset] == encoded[offset..rest.offset];
    }
  }

  lemma {:induction false} ToEndReprints(layout: Layout, encoded: bytes, offset: nat)
    requires Lossless(layout) && DistinctNames(layout)
    requires offset <= |encoded| && ParseToEnd(layout, encoded, offset).Ok?
    ensures var p := ParseToEnd(layout, encoded, offset).value;
            Reprints(ElemsBytes(layout, p.value), encoded, offset, p.offset)
    decreases layout, 1, |encoded| - offset
  {
    if offset == |encoded| {
      assert encoded[offset..offset] == [];
    } else {
      var first := ParseLayout(layout, encoded, offset).value;
      LayoutReprints(layout, encoded, offset);
      ToEndReprints(layout, encoded, first.offset);
      var rest := ParseToEnd(layout, encoded, first.offset).value;
      assert ([RecordV(first.value)] + rest.value)[1..] == rest.value;
      assert encoded[offset..first.offset] + encoded[first.offset..rest.offset] == encoded[offset..rest.offset];
    }
  }

  /** Encode undoes decode: an accepted byte string is the one serialization of what it decodes to. */
  lemma EncodeUndoesDecode(layout: Layout, encoded: bytes)
    requires Lossless(layout) && DistinctNames(layout)
    requires ParseAll(layout, encoded, 0).Ok?
    ensures LayoutBytes(layout, ParseAll(layout, encoded, 0).value) == Ok(encoded)
  {
    LayoutReprints(layout, encoded, 0);
    assert encoded[0..|encoded|] == encoded;
  }

  /** Hence no two accepted byte strings decode to the same value. */
  lemma DecodingIsInjective(layout: Layout, a: bytes, b: bytes)
    requires Lossless(layout) && DistinctNames(layout)
    requires ParseAll(layout, a, 0).Ok? && ParseAll(layout, a, 0) == ParseAll(layout, b, 0)
    ensures a == b
  {
    EncodeUndoesDecode(layout, a);
    EncodeUndoesDecode(layout, b);
  }

  // ---- the parser's loop over open-ended arrays -------------------------------------------

  /** Every successful parse reads at least the lower bound of the layout. */
  lemma {:induction false} ParseReadsLowerBound(layout: Layout, encoded: bytes, offset: nat)
    requires offset <= |encoded| && ParseLayout(layout, encoded, offset).Ok?
    ensures offset + LayoutBounds(layout).lower <= ParseLayout(layout, encoded, offset).value.offset <= |encoded|
    decreases layout, 0, 0
  {
    if |layout| > 0 {
      ParseItemReadsLowerBound(layout[0], encoded, offset);
      ParseReadsLowerBound(layout[1..], encoded, ParseItem(layout[0], encoded, offset).value.offset);
    }
  }

  lemma {:induction false} ParseItemReadsLowerBound(item: Item, encoded: bytes, offset: nat)
    requires offset <= |encoded| && ParseItem(item, encoded, offset).Ok?
    ensures offset + ItemBounds(item).lower <= ParseItem(item, encoded, offset).value.offset <= |encoded|
    decreases item, 0, 0
  {
    match item
    case UintItem(_, _, _) =>
    case BytesItem(_, _) =>
    case ObjectItem(_, layout) => ParseReadsLowerBound(layout, encoded, offset);
    case ArrayItem(_, None, layout) => ToEndStaysInside(layout, encoded, offset);
    case ArrayItem(_, Some(n), layout) =>
      var length := ParseUint(encoded, offset, n).value;
      ElemsStayInside(layout, encoded, length.offset, length.value);
  }

  lemma {:induction false} ElemsStayInside(layout: Layout, encoded: bytes, offset: nat, count: nat)
    requires offset <= |encoded| && ParseElems(layout, encoded, offset, count).Ok?
    ensures offset <= ParseElems(layout, encoded, offset, count).value.offset <= |encoded|
    decreases layout, 1, count
  {
    if count > 0 {
      ParseReadsLowerBound(layout, encoded, offset);
      ElemsStayInside(layout, encoded, ParseLayout(layout, encoded, offset).value.offset, count - 1);
    }
  }

  lemma {:induction false} ToEndStaysInside(layout: Layout, encoded: bytes, offset: nat)
    requires offset <= |encoded| && ParseToEnd(layout, encoded, offset).Ok?
    ensures offset <= ParseToEnd(layout, encoded, offset).value.offset <= |encoded|
    decreases layout, 1, |encoded| - offset
  {
    if offset < |encoded| {
      ParseReadsLowerBound(layout, encoded, offset);
      ToEndStaysInside(layout, encoded, ParseLayout(layout, encoded, offset).value.offset);
    }
  }

  /** Elements of this layout take no bytes at all, and decode from none. */
  predicate Empty(layout: Layout) {
    LayoutBounds(layout).upper == Some(0) && ParseLayout(layout, [], 0).Ok?
  }

  /** What takes no bytes is read without moving, and then anywhere else as well. */
  lemma {:induction false} SizelessIsRead(layout: Layout, a: bytes, i: nat, b: bytes, j: nat)
    requires LayoutBounds(layout).upper == Some(0) && i <= |a| && j <= |b| && ParseLayout(layout, a, i).Ok?
    ensures ParseLayout(layout, a, i).value.offset == i
    ensures ParseLayout(layout, b, j).Ok? && ParseLayout(layout, b, j).value.offset == j
    decreases layout
  {
    if |layout| > 0 {
      SizelessItemIsRead(layout[0], a, i, b, j);
      SizelessIsRead(layout[1..], a, i, b, j);
    }
  }

  lemma {:induction false} SizelessItemIsRead(item: Item, a: bytes, i: nat, b: bytes, j: nat)
    requires ItemBounds(item).upper == Some(0) && i <= |a| && j <= |b| && ParseItem(item, a, i).Ok?
    ensures ParseItem(item, a, i).value.offset == i
    ensures ParseItem(item, b, j).Ok? && ParseItem(item, b, j).value.offset == j
    decreases item
  {
    assert a[i..i] == b[j..j];
    if item.ObjectItem? {
      SizelessIsRead(item.layout, a, i, b, j);
    }
  }

  /** While there is data left, nothing else is read without moving. */
  lemma {:induction false} StuckIsSizeless(layout: Layout, encoded: bytes, offset: nat)
    requires offset < |encoded| && ParseLayout(layout, encoded, offset).Ok?
    requires ParseLayout(layout, encoded, offset).value.offset == offset
    ensures LayoutBounds(layout).upper == Some(0)
    decreases layout
  {
    if |layout| > 0 {
      var first := ParseItem(layout[0], encoded, offset).value;
      ParseItemReadsLowerBound(layout[0], encoded, offset);
      ParseReadsLowerBound(layout[1..], encoded, first.offset);
      StuckItemIsSizeless(layout[0], encoded, offset);
      StuckIsSizeless(layout[1..], encoded, offset);
    }
  }

  lemma {:induction false} StuckItemIsSizeless(item: Item, encoded: bytes, offset: nat)
    requires offset < |encoded| && ParseItem(item, encoded, offset).Ok?
    requires ParseItem(item, encoded, offset).value.offset == offset
    ensures ItemBounds(item).upper == Some(0)
    decreases item
  {
    match item
    case UintItem(_, _, _) =>
    case BytesItem(_, _) =>
    case ObjectItem(_, layout) => StuckIsSizeless(layout, encoded, offset);
    case ArrayItem(_, None, layout) =>
      ParseReadsLowerBound(layout, encoded, offset);
      ToEndStaysInside(layout, encoded, ParseLayout(layout, encoded, offset).value.offset);
    case ArrayItem(_, Some(n), layout) =>
      var length := ParseUint(encoded, offset, n).value;
      ElemsStayInside(layout, encoded, length.offset, length.value);
  }

  lemma StuckIsEmpty(layout: Layout, encoded: bytes, offset: nat)
    requires offset < |encoded| && ParseLayout(layout, encoded, offset).Ok?
    requires ParseLayout(layout, encoded, offset).value.offset == offset
    ensures Empty(layout)
  {
    StuckIsSizeless(layout, encoded, offset);
    SizelessIsRead(layout, encoded, offset, [], 0);
  }

  /**
   * The loop over elements that terminate themselves never ends, whatever data is left, just if the elements
   * are empty.
   */
  lemma LoopsJustIfEmpty(layout: Layout, encoded: bytes, offset: nat)
    requires ElementsTakeSpace(layout) && offset < |encoded|
    ensures ParseToEnd(layout, encoded, offset) == Err(NonTerminating) <==> Empty(layout)
  {
    if Empty(layout) {
      SizelessIsRead(layout, [], 0, encoded, offset);
    } else {
      ToEndTerminates(layout, encoded, offset);
    }
  }

  const SPACELESS := [ArrayItem("elems", None, [BytesItem("elem", SizedBytes(0, None))])]

  /** One byte of data, and elements of size zero. */
  lemma SpacelessLoops()
    ensures ParseLayout(SPACELESS, [0], 0) == Err(NonTerminating)
  {
    var elem := SPACELESS[0].layout;
    assert elem[1..] == [];
    assert ParseItem(elem[0], [0], 0).Ok? && ParseItem(elem[0], [0], 0).value.offset == 0;
    assert ParseLayout(elem, [0], 0).Ok? && ParseLayout(elem, [0], 0).value.offset == 0;
    assert ParseToEnd(elem, [0], 0) == Err(NonTerminating);
    assert ParseItem(SPACELESS[0], [0], 0) == Err(NonTerminating);
  }

  /** No open-ended array, at any depth, has empty elements. */
  predicate ElementsTakeSpace(layout: Layout)
    decreases layout
  {
    |layout| > 0 ==>
      && (layout[0].ArrayItem? && layout[0].lengthSize.None? ==> !Empty(layout[0].layout))
      && (layout[0].ArrayItem? || layout[0].ObjectItem? ==> ElementsTakeSpace(layout[0].layout))
      && ElementsTakeSpace(layout[1..])
  }

  /** Then the parser terminates on every input: none of its loops can fail to make progress. */
  lemma {:induction false} ParserTerminates(layout: Layout, encoded: bytes, offset: nat)
    requires ElementsTakeSpace(layout) && offset <= |encoded|
    ensures ParseLayout(layout, encoded, offset) != Err(NonTerminating)
    decreases layout, 0, 0
  {
    if |layout| > 0 {
      var first := ParseItem(layout[0], encoded, offset);
      ItemTerminates(layout[0], encoded, offset);
      if first.Ok? {
        ParseItemReadsLowerBound(layout[0], encoded, offset);
        ParserTerminates(layout[1..], encoded, first.value.offset);
      }
    }
  }

  lemma {:induction false} ItemTerminates(item: Item, encoded: bytes, offset: nat)
    requires item.ArrayItem? && item.lengthSize.None? ==> !Empty(item.layout)
    requires item.ArrayItem? || item.ObjectItem? ==> ElementsTakeSpace(item.layout)
    requires offset <= |encoded|
    ensures ParseItem(item, encoded, offset) != Err(NonTerminating)
    decreases item, 0, 0
  {
    match item
    case UintItem(_, _, _) =>
    case BytesItem(_, _) =>
    case ObjectItem(_, layout) => ParserTerminates(layout, encoded, offset);
    case ArrayItem(_, None, layout) => ToEndTerminates(layout, encoded, offset);
    case ArrayItem(_, Some(n), layout) =>
      var length := ParseUint(encoded, offset, n);
      if length.Ok? {
        ElemsTerminate(layout, encoded, length.value.offset, length.value.value);
      }
  }

  lemma {:induction false} ElemsTerminate(layout: Layout, encoded: bytes, offset: nat, count: nat)
    requires ElementsTakeSpace(layout) && offset <= |encoded|
    ensures ParseElems(layout, encoded, offset, count) != Err(NonTerminating)
    decreases layout, 1, count
  {
    if count > 0 {
      var first := ParseLayout(layout, encoded, offset);
      ParserTerminates(layout, encoded, offset);
      if first.Ok? {
        ParseReadsLowerBound(layout, encoded, offset);
        ElemsTerminate(layout, encoded, first.value.offset, count - 1);
      }
    }
  }

  lemma {:induction false} ToEndTerminates(layout: Layout, encoded: bytes, offset: nat)
    requires ElementsTakeSpace(layout) && !Empty(layout) && offset <= |encoded|
    ensures ParseToEnd(layout, encoded, offset) != Err(NonTerminating)
    decreases layout, 1, |encoded| - offset
  {
    if offset < |encoded| {
      var first := ParseLayout(layout, encoded, offset);
      ParserTerminates(layout, encoded, offset);
      if first.Ok? {
        ParseReadsLowerBound(layout, encoded, offset);
        if first.value.offset == offset {
          StuckIsEmpty(layout, encoded, offset);
          assert false;
        }
        ToEndTerminates(layout, encoded, first.value.offset);
      }
    }
  }
}
