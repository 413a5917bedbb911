// fixedDynamic.ts: filling in the constants of a layout.
module FixedDynamic {
  import opened Common
  import opened Layouts
  import opened Serialize
  import opened Deserialize
  import opened RoundTrip

  /** The value a constant leaf contributes; nothing if the item is not a constant leaf. */
  function ConstantLeaf(item: Item): Option<Value> {
    match item
    case UintItem(_, _, ConstantUint(c, _)) => Some(UintV(c))
    case UintItem(_, _, ConstantUintAs(_, to)) => Some(to)
    case BytesItem(_, ConstantBytes(c, _)) => Some(BytesV(c))
    case BytesItem(_, ConstantBytesAs(_, to)) => Some(to)
    case _ => None
  }

  /** `(item.name in dynamicValues) ? dynamicValues[item.name] : missing` */
  function FieldOr(dynamicValues: Value, name: string, missing: Value): Result<Value> {
    if !dynamicValues.RecordV? then Err(TypeFault)
    else Ok(if name in dynamicValues.fields then dynamicValues.fields[name] else missing)
  }

  function FilledItem(item: Item, dynamicValues: Value): Result<Value>
    decreases item, 0, 0
  {
    match item
    case ObjectItem(name, layout) =>
      var sub :- FieldOr(dynamicValues, name, RecordV(map[]));
      var filled :- Filled(layout, sub);
      Ok(RecordV(filled))
    case ArrayItem(name, _, layout) =>
      var sub :- FieldOr(dynamicValues, name, ListV([]));
      if !sub.ListV? then Err(TypeFault)
      else
        var filled :- FilledElems(layout, sub.elems);
        Ok(ListV(filled))
    case _ =>
      match ConstantLeaf(item)
      case Some(constant) => Ok(constant)
      case None => Field(dynamicValues, item.name)
  }

  /** What addFixedValues makes of `dynamicValues`. */
  function Filled(layout: Layout, dynamicValues: Value): Result<Fields>
    decreases layout, 0, 0
  {
    if |layout| == 0 then Ok(map[])
    else
      var first :- if layout[0].Omitted() then Ok(Undefined) else FilledItem(layout[0], dynamicValues);
      var rest :- Filled(layout[1..], dynamicValues);
      Ok(Assign(layout[0], first) + rest)
  }

  function FilledElems(layout: Layout, elems: seq<Value>): Result<seq<Value>>
    decreases layout, 1, |elems|
  {
    if |elems| == 0 then Ok([])
    else
      var first :- Filled(layout, elems[0]);
      var rest :- FilledElems(layout, elems[1..]);
      Ok([RecordV(first)] + rest)
  }

  method AddFixedValues(layout: Layout, dynamicValues: Value) returns (r: Result<Fields>)
    ensures r == Filled(layout, dynamicValues)
    decreases layout, 0, 0
  {
    var ret: Fields := map[];
    ghost var spec := Filled(layout, dynamicValues);
    assert layout[0..] == layout;
    assert spec.Ok? ==> map[] + spec.value == spec.value;
    for i := 0 to |layout|
      invariant spec == AndThen(ret, Filled(layout[i..], dynamicValues))
    {
      var item := layout[i];
      FilledNext(layout, dynamicValues, i, ret);
      var v := Ok(Undefined);
      if !item.Omitted() {
        v := AddFixedItem(item, dynamicValues);
        if v.Err? {
          return Err(v.error);
        }
      }
      AssignIsUpdate(ret, item, v.value);
      if !item.Omitted() {
        ret := ret[item.name := v.value];
      }
    }
    assert ret + map[] == ret;
    return Ok(ret);
  }

  function AndThen(done: Fields, rest: Result<Fields>): Result<Fields> {
    if rest.Ok? then Ok(done + rest.value) else rest
  }

  /** One round of the loop. */
  lemma FilledNext(layout: Layout, dynamicValues: Value, i: nat, ret: Fields)
    requires i < |layout|
    ensures var v := if layout[i].Omitted() then Ok(Undefined) else FilledItem(layout[i], dynamicValues);
            AndThen(ret, Filled(layout[i..], dynamicValues)) ==
              if v.Err? then Err(v.error)
              else AndThen(ret + Assign(layout[i], v.value), Filled(layout[i + 1..], dynamicValues))
  {
    assert layout[i..][1..] == layout[i + 1..];
    var v := if layout[i].Omitted() then Ok(Undefined) else FilledItem(layout[i], dynamicValues);
    if v.Ok? {
      AndThenNext(ret, Assign(layout[i], v.value), Filled(layout[i + 1..], dynamicValues));
    }
  }

  lemma AssignIsUpdate(ret: Fields, item: Item, v: Value)
    ensures ret + Assign(item, v) == if item.Omitted() then ret else ret[item.name := v]
  {
  }

  lemma AndThenNext(done: Fields, f: Fields, rest: Result<Fields>)
    ensures AndThen(done, AndThen(f, rest)) == AndThen(done + f, rest)
  {
    assert rest.Ok? ==> done + (f + rest.value) == done + f + rest.value;
  }

  method AddFixedItem(item: Item, dynamicValues: Value) returns (r: Result<Value>)
    ensures r == FilledItem(item, dynamicValues)
    decreases item, 0, 0
  {
    match item {
      case ObjectItem(name, layout) =>
        var sub := FieldOr(dynamicValues, name, RecordV(map[]));
        if sub.Err? {
          return sub;
        }
        var filled := AddFixedValues(layout, sub.value);
        return if filled.Err? then Err(filled.error) else Ok(RecordV(filled.value));
      case ArrayItem(name, _, layout) =>
        var sub := FieldOr(dynamicValues, name, ListV([]));
        if sub.Err? {
          return sub;
        }
        if !sub.value.ListV? {
          return Err(TypeFault);
        }
        var filled := AddFixedElems(layout, sub.value.elems);
        return if filled.Err? then Err(filled.error) else Ok(ListV(filled.value));
      case _ =>
        var constant := ConstantLeaf(item);
        return if constant.Some? then Ok(constant.value) else Field(dynamicValues, item.name);
    }
  }

  method AddFixedElems(layout: Layout, elems: seq<Value>) returns (r: Result<seq<Value>>)
    ensures r == FilledElems(layout, elems)
    decreases layout, 1, |elems|
  {
    if |elems| == 0 {
      return Ok([]);
    }
    var first := AddFixedValues(layout, elems[0]);
    if first.Err? {
      return Err(first.error);
    }
    var rest := AddFixedElems(layout, elems[1..]);
    return if rest.Err? then rest else Ok([RecordV(first.value)] + rest.value);
  }

  // ---- idempotence ------------------------------------------------------------------------

  lemma {:induction false} FilledNames(layout: Layout, dynamicValues: Value)
    requires Filled(layout, dynamicValues).Ok?
    ensures Filled(layout, dynamicValues).value.Keys == Names(layout)
    decreases layout
  {
    if |layout| > 0 {
      FilledNames(layout[1..], dynamicValues);
    }
  }

  /** Filling in what has been filled in changes nothing. */
  lemma FillingIsIdempotent(layout: Layout, dynamicValues: Value)
    requires DistinctNames(layout) && Filled(layout, dynamicValues).Ok?
    ensures Filled(layout, RecordV(Filled(layout, dynamicValues).value)) == Filled(layout, dynamicValues)
    decreases layout, 0, 1
  {
    var fields := Filled(layout, dynamicValues).value;
    FilledNames(layout, dynamicValues);
    OnlyNames(fields, layout);
    RefillingWithin(layout, dynamicValues, fields);
  }

  /** ... also from a record that has other fields besides. */
  lemma {:induction false} RefillingWithin(layout: Layout, dynamicValues: Value, fields: Fields)
    requires DistinctNames(layout) && Filled(layout, dynamicValues).Ok?
    requires Restrict(fields, Names(layout)) == Filled(layout, dynamicValues).value
    ensures Filled(layout, RecordV(fields)) == Filled(layout, dynamicValues)
    decreases layout, 0, 0
  {
    if |layout| > 0 {
      var item := layout[0];
      var rest := Filled(layout[1..], dynamicValues).value;
      FilledNames(layout[1..], dynamicValues);
      var v := if item.Omitted() then Undefined else FilledItem(item, dynamicValues).value;
      TailWithin(item, layout, v, rest, fields);
      RefillingWithin(layout[1..], dynamicValues, fields);
      if !item.Omitted() {
        RefillingItem(item, dynamicValues, fields);
      }
    }
  }

  lemma TailWithin(item: Item, layout: Layout, v: Value, rest: Fields, fields: Fields)
    requires |layout| > 0 && item == layout[0] && DistinctNames(layout)
    requires rest.Keys == Names(layout[1..])
    requires Restrict(fields, Names(layout)) == Assign(item, v) + rest
    ensures Restrict(fields, Names(layout[1..])) == rest
    ensures !item.Omitted() ==> item.name in fields && fields[item.name] == v
  {
    var all := Restrict(fields, Names(layout));
    assert forall name <- rest :: name in all && all[name] == rest[name] && fields[name] == all[name];
    if !item.Omitted() {
      assert item.name in all && all[item.name] == v && fields[item.name] == v;
    }
  }

  lemma {:induction false} RefillingItem(item: Item, dynamicValues: Value, fields: Fields)
    requires item.ArrayItem? || item.ObjectItem? ==> DistinctNames(item.layout)
    requires FilledItem(item, dynamicValues).Ok?
    requires item.name in fields && fields[item.name] == FilledItem(item, dynamicValues).value
    ensures FilledItem(item, RecordV(fields)) == FilledItem(item, dynamicValues)
    decreases item, 0, 0
  {
    match item
    case ObjectItem(name, layout) =>
      FillingIsIdempotent(layout, FieldOr(dynamicValues, name, RecordV(map[])).value);
    case ArrayItem(name, _, layout) =>
      RefillingElems(layout, FieldOr(dynamicValues, name, ListV([])).value.elems);
    case _ =>
  }

  lemma {:induction false} RefillingElems(layout: Layout, elems: seq<Value>)
    requires DistinctNames(layout) && FilledElems(layout, elems).Ok?
    ensures FilledElems(layout, FilledElems(layout, elems).value) == FilledElems(layout, elems)
    decreases layout, 1, |elems|
  {
    if |elems| > 0 {
      FillingIsIdempotent(layout, elems[0]);
      RefillingElems(layout, elems[1..]);
      var first, rest := Filled(layout, elems[0]).value, FilledElems(layout, elems[1..]).value;
      assert ([RecordV(first)] + rest)[1..] == rest;
    }
  }

  // ---- forgetting the constants -----------------------------------------------------------

  /** `v` without its constant leaves; arrays and objects are kept. */
  function ForgetItem(item: Item, v: Value): Value
    decreases item, 0, 0
  {
    match item
    case ObjectItem(_, layout) => if v.RecordV? then RecordV(Forget(layout, v.fields)) else v
    case ArrayItem(_, _, layout) => if v.ListV? then ListV(ForgetElems(layout, v.elems)) else v
    case _ => v
  }

  function Forget(layout: Layout, fields: Fields): Fields
    decreases layout, 0, 0
  {
    if |layout| == 0 then map[]
    else
      var item := layout[0];
      (if ConstantLeaf(item).Some? || item.name !in fields then map[]
       else map[item.name := ForgetItem(item, fields[item.name])])
      + Forget(layout[1..], fields)
  }

  function ForgetElems(layout: Layout, elems: seq<Value>): (r: seq<Value>)
    ensures |r| == |elems|
    decreases layout, 1, |elems|
  {
    if |elems| == 0 then []
    else [if elems[0].RecordV? then RecordV(Forget(layout, elems[0].fields)) else elems[0]]
         + ForgetElems(layout, elems[1..])
  }

  /** The constant of the item, or what its fixed conversion gives for it. */
  predicate IsConstant(item: Item, v: Value) {
    match item
    case UintItem(_, _, ConstantUint(c, _)) => v == UintV(c)
    case UintItem(_, _, ConstantUintAs(_, to)) => v == to
    case BytesItem(_, ConstantBytes(c, _)) => v == BytesV(c)
    case BytesItem(_, ConstantBytesAs(_, to)) => v == to
    case _ => true
  }

  /** `v` has the shape of the item and carries its constants. */
  predicate HasConstants(item: Item, v: Value)
    decreases item, 0
  {
    match item
    case ObjectItem(_, layout) => v.RecordV? && v.fields.Keys == Names(layout) && AllHaveConstants(layout, v.fields)
    case ArrayItem(_, _, layout) =>
      v.ListV? && forall e <- v.elems :: e.RecordV? && e.fields.Keys == Names(layout) && AllHaveConstants(layout, e.fields)
    case _ => IsConstant(item, v)
  }

  predicate AllHaveConstants(layout: Layout, fields: Fields)
    decreases layout, 1
  {
    |layout| > 0 ==>
      && (!layout[0].Omitted() ==> layout[0].name in fields && HasConstants(layout[0], fields[layout[0].name]))
      && AllHaveConstants(layout[1..], fields)
  }

  predicate CarriesConstants(layout: Layout, v: Value) {
    v.RecordV? && v.fields.Keys == Names(layout) && AllHaveConstants(layout, v.fields)
  }

  /** Filling in undoes forgetting. */
  lemma FillingUndoesForgetting(layout: Layout, v: Value)
    requires DistinctNames(layout) && CarriesConstants(layout, v)
    ensures Filled(layout, RecordV(Forget(layout, v.fields))) == Ok(v.fields)
    decreases layout, 0, 1
  {
    OnlyNames(v.fields, layout);
    FillingForgotten(layout, v.fields, Forget(layout, v.fields));
  }

  lemma {:induction false} ForgetNames(layout: Layout, fields: Fields)
    ensures Forget(layout, fields).Keys <= Names(layout)
    decreases layout
  {
    if |layout| > 0 {
      ForgetNames(layout[1..], fields);
    }
  }

  /** `less` agrees with the forgotten record on the names of the layout. */
  lemma {:induction false} FillingForgotten(layout: Layout, fields: Fields, less: Fields)
    requires DistinctNames(layout) && AllHaveConstants(layout, fields)
    requires forall name <- Forget(layout, fields) :: name in less && less[name] == Forget(layout, fields)[name]
    ensures Filled(layout, RecordV(less)) == Ok(Restrict(fields, Names(layout)))
    decreases layout, 0, 0
  {
    if |layout| > 0 {
      var item := layout[0];
      ForgetNames(layout[1..], fields);
      assert forall name <- Forget(layout[1..], fields) :: name in Forget(layout, fields);
      FillingForgotten(layout[1..], fields, less);
      if !item.Omitted() {
        if ConstantLeaf(item).None? {
          assert item.name in Forget(layout, fields);
        }
        FillingForgottenItem(item, fields[item.name], less);
        RestrictSplit(layout, fields, fields[item.name]);
      } else {
        RestrictSplit(layout, fields, Undefined);
      }
    } else {
      assert Restrict(fields, {}) == map[];
    }
  }

  lemma {:induction false} FillingForgottenItem(item: Item, v: Value, less: Fields)
    requires item.ArrayItem? || item.ObjectItem? ==> DistinctNames(item.layout)
    requires HasConstants(item, v)
    requires ConstantLeaf(item).None? ==> item.name in less && less[item.name] == ForgetItem(item, v)
    ensures FilledItem(item, RecordV(less)) == Ok(v)
    decreases item, 0, 0
  {
    match item
    case ObjectItem(_, layout) => FillingUndoesForgetting(layout, v);
    case ArrayItem(_, _, layout) => FillingForgottenElems(layout, v.elems);
    case _ =>
  }

  lemma {:induction false} FillingForgottenElems(layout: Layout, elems: seq<Value>)
    requires DistinctNames(layout) && forall e <- elems :: CarriesConstants(layout, e)
    ensures FilledElems(layout, ForgetElems(layout, elems)) == Ok(elems)
    decreases layout, 1, |elems|
  {
    if |elems| > 0 {
      assert elems[0] in elems && elems[0] == RecordV(elems[0].fields);
      FillingUndoesForgetting(layout, elems[0]);
      FillingForgottenElems(layout, elems[1..]);
      assert ForgetElems(layout, elems)[1..] == ForgetElems(layout, elems[1..]);
      assert [elems[0]] + elems[1..] == elems;
    }
  }

  // ---- the serializer accepts the constants -----------------------------------------------

  /**
   * At every constant of the layout, however deep, `data` has that constant, and the serializer's checks of size and
   * content of bytes and value of uints pass.
   */
  predicate ConstantsAccepted(layout: Layout, data: Value)
    decreases layout
  {
    |layout| > 0 ==>
      && Field(data, layout[0].name).Ok? && ConstantAccepted(layout[0], Field(data, layout[0].name).value)
      && ConstantsAccepted(layout[1..], data)
  }

  predicate ConstantAccepted(item: Item, v: Value)
    decreases item
  {
    match item
    case UintItem(_, _, custom) =>
      custom.ConstantUint? || custom.ConstantUintAs? ==>
        StoredUint(custom, v).Ok? && (item.Omitted() || IsConstant(item, v))
    case BytesItem(_, form) =>
      form.ConstantBytes? || form.ConstantBytesAs? ==>
        BytesFormBytes(form, v).Ok? && (item.Omitted() || IsConstant(item, v))
    case ArrayItem(_, _, layout) => v.ListV? && forall e <- v.elems :: ConstantsAccepted(layout, e)
    case ObjectItem(_, layout) => ConstantsAccepted(layout, v)
  }

  /** The constants of uint items are integers. */
  predicate IntegralConstants(layout: Layout)
    decreases layout
  {
    |layout| > 0 ==>
      && (layout[0].UintItem? && layout[0].custom.ConstantUint? ==> !layout[0].custom.value.Fractional?)
      && (layout[0].ArrayItem? || layout[0].ObjectItem? ==> IntegralConstants(layout[0].layout))
      && IntegralConstants(layout[1..])
  }

  /** What has been filled in are the constants of the layout, and they pass the serializer's checks. */
  lemma FilledIsAccepted(layout: Layout, dynamicValues: Value)
    requires DistinctNames(layout) && IntegralConstants(layout) && Filled(layout, dynamicValues).Ok?
    ensures ConstantsAccepted(layout, RecordV(Filled(layout, dynamicValues).value))
    decreases layout, 0, 1
  {
    var fields := Filled(layout, dynamicValues).value;
    FilledNames(layout, dynamicValues);
    OnlyNames(fields, layout);
    AcceptedWithin(layout, dynamicValues, fields);
  }

  lemma {:induction false} AcceptedWithin(layout: Layout, dynamicValues: Value, fields: Fields)
    requires DistinctNames(layout) && IntegralConstants(layout) && Filled(layout, dynamicValues).Ok?
    requires Restrict(fields, Names(layout)) == Filled(layout, dynamicValues).value
    ensures ConstantsAccepted(layout, RecordV(fields))
    decreases layout, 0, 0
  {
    if |layout| > 0 {
      var item := layout[0];
      var rest := Filled(layout[1..], dynamicValues).value;
      FilledNames(layout[1..], dynamicValues);
      var v := if item.Omitted() then Undefined else FilledItem(item, dynamicValues).value;
      TailWithin(item, layout, v, rest, fields);
      AcceptedWithin(layout[1..], dynamicValues, fields);
      if !item.Omitted() {
        AcceptedItem(item, dynamicValues, v);
      }
      assert ConstantAccepted(item, Field(RecordV(fields), item.name).value);
    }
  }

  lemma {:induction false} AcceptedItem(item: Item, dynamicValues: Value, v: Value)
    requires item.ArrayItem? || item.ObjectItem? ==> DistinctNames(item.layout) && IntegralConstants(item.layout)
    requires item.UintItem? && item.custom.ConstantUint? ==> !item.custom.value.Fractional?
    requires FilledItem(item, dynamicValues) == Ok(v)
    ensures ConstantAccepted(item, v)
    decreases item, 0, 0
  {
    match item
    case ObjectItem(name, layout) =>
      FilledIsAccepted(layout, FieldOr(dynamicValues, name, RecordV(map[])).value);
    case ArrayItem(name, _, layout) =>
      AcceptedElems(layout, FieldOr(dynamicValues, name, ListV([])).value.elems);
    case UintItem(_, _, _) =>
    case BytesItem(_, _) =>
  }

  lemma {:induction false} AcceptedElems(layout: Layout, elems: seq<Value>)
    requires DistinctNames(layout) && IntegralConstants(layout) && FilledElems(layout, elems).Ok?
    ensures forall e <- FilledElems(layout, elems).value :: ConstantsAccepted(layout, e)
    decreases layout, 1, |elems|
  {
    if |elems| > 0 {
      FilledIsAccepted(layout, elems[0]);
      AcceptedElems(layout, elems[1..]);
    }
  }
}
