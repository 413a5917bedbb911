// discriminate.ts, first half: what createLayoutMeta knows about a layout without seeing any data -
// the bounds of its size, and the bytes that are the same in every serialization.
module LayoutMeta {
  import opened Common
  import opened BigEndian
  import opened Layouts
  import opened Serialize

  /** Smallest and largest size; no upper bound stands for Infinity. */
  datatype Bounds = Bounds(lower: nat, upper: Option<nat>) {

    predicate Exact() {
      upper == Some(lower)
    }

    predicate Contains(size: nat) {
      lower <= size && (upper.Some? ==> size <= upper.value)
    }

    function Plus(b: Bounds): Bounds {
      Bounds(lower + b.lower, if upper.Some? && b.upper.Some? then Some(upper.value + b.upper.value) else None)
    }

    /** Where the next item starts, if that is known. */
    function End(): Option<nat> {
      if Exact() then Some(lower) else None
    }
  }

  const NOTHING := Bounds(0, Some(0))

  type FixedBytes = seq<(nat, bytes)>

  datatype Meta = Meta(bounds: Bounds, fixedBytes: FixedBytes)

  function ExactSize(size: nat): Bounds {
    Bounds(size, Some(size))
  }

  function OpenSize(lengthSize: Option<NumberSize>): Bounds {
    Bounds(if lengthSize.Some? then lengthSize.value else 0, None)
  }

  // ---- bounds -----------------------------------------------------------------------------

  function ItemBounds(item: Item): Bounds
    decreases item
  {
    match item
    case UintItem(_, size, _) => ExactSize(size)
    case BytesItem(_, SizedBytes(size, _)) => ExactSize(size)
    case BytesItem(_, ConstantBytes(c, _)) => ExactSize(|c|)
    case BytesItem(_, ConstantBytesAs(from, _)) => ExactSize(|from|)
    case BytesItem(_, PrefixedBytes(lengthSize, _)) => OpenSize(lengthSize)
    case ArrayItem(_, lengthSize, _) => OpenSize(lengthSize)
    case ObjectItem(_, layout) => LayoutBounds(layout)
  }

  function LayoutBounds(layout: Layout): Bounds
    decreases layout
  {
    if |layout| == 0 then NOTHING else ItemBounds(layout[0]).Plus(LayoutBounds(layout[1..]))
  }

  /** Every serialization has a size within the bounds, however deeply the layout nests. */
  lemma {:induction false} BoundsHold(layout: Layout, data: Value)
    requires LayoutBytes(layout, data).Ok?
    ensures LayoutBounds(layout).Contains(|LayoutBytes(layout, data).value|)
    decreases layout
  {
    if |layout| > 0 {
      ItemBoundsHold(layout[0], Field(data, layout[0].name).value);
      BoundsHold(layout[1..], data);
    }
  }

  lemma {:induction false} ItemBoundsHold(item: Item, v: Value)
    requires ItemBytes(item, v).Ok?
    ensures ItemBounds(item).Contains(|ItemBytes(item, v).value|)
    decreases item
  {
    if item.ObjectItem? {
      BoundsHold(item.layout, v);
    }
  }

  /** And the lower bound of what is of open size is what its empty value takes. */
  lemma EmptyTakesLowerBound(item: Item)
    ensures item.ArrayItem? ==>
              ItemBytes(item, ListV([])).Ok? && |ItemBytes(item, ListV([])).value| == ItemBounds(item).lower
    ensures item.BytesItem? && item.form.PrefixedBytes? && item.form.conv.None? ==>
              ItemBytes(item, BytesV([])).Ok? && |ItemBytes(item, BytesV([])).value| == ItemBounds(item).lower
  {
    var n := if item.ArrayItem? then item.lengthSize
             else if item.BytesItem? && item.form.PrefixedBytes? then item.form.lengthSize else None;
    if n.Some? {
      assert UintBytes(Num(0), n.value) == Ok(Digits(0, n.value));
    }
  }

  // ---- fixed bytes ------------------------------------------------------------------------

  /** The constant an item always prints, if it is one that layoutItemMeta recognizes. */
  function KnownConstant(item: Item): Option<Result<bytes>> {
    match item
    case UintItem(_, size, ConstantUint(c, _)) => Some(UintBytes(c, size))
    case BytesItem(_, ConstantBytes(c, _)) => Some(Ok(c))
    case BytesItem(_, ConstantBytesAs(from, _)) => Some(Ok(from))
    case _ => None
  }

  function ItemFixed(item: Item, offset: Option<nat>): Result<FixedBytes>
    decreases item, 0
  {
    if item.ObjectItem? then LayoutFixed(item.layout, offset, NOTHING)
    else
      match KnownConstant(item)
      case None => Ok([])
      case Some(constant) =>
        var c :- constant;
        Ok(if offset.Some? then [(offset.value, c)] else [])
  }

  /**
   * The pairs recorded for `layout`, whose first item starts at `offset`; `sofar` are the bounds of
   * the items of the same layout before it. As in the source, the offset of every item but the first
   * comes from `sofar` alone, even when the layout is nested in another one.
   */
  function LayoutFixed(layout: Layout, offset: Option<nat>, sofar: Bounds): Result<FixedBytes>
    decreases layout, 1
  {
    if |layout| == 0 then Ok([])
    else
      var first :- ItemFixed(layout[0], offset);
      var next := sofar.Plus(ItemBounds(layout[0]));
      var rest :- LayoutFixed(layout[1..], next.End(), next);
      Ok(first + rest)
  }

  /** layoutItemMeta, pushing onto `fixedBytes`. */
  method LayoutItemMeta(item: Item, offset: Option<nat>, fixedBytes: FixedBytes) returns (r: Result<Meta>)
    ensures r == MetaOf(ItemBounds(item), PrependPairs(fixedBytes, ItemFixed(item, offset)))
    decreases item, 0
  {
    assert fixedBytes + [] == fixedBytes;
    match item {
      case ObjectItem(_, layout) =>
        r := CreateLayoutMeta(layout, offset, fixedBytes);
      case ArrayItem(_, lengthSize, _) =>
        return Ok(Meta(OpenSize(lengthSize), fixedBytes));
      case BytesItem(_, SizedBytes(size, _)) =>
        return Ok(Meta(ExactSize(size), fixedBytes));
      case BytesItem(_, ConstantBytes(c, _)) =>
        return Ok(Meta(ExactSize(|c|), if offset.Some? then fixedBytes + [(offset.value, c)] else fixedBytes));
      case BytesItem(_, ConstantBytesAs(c, _)) =>
        return Ok(Meta(ExactSize(|c|), if offset.Some? then fixedBytes + [(offset.value, c)] else fixedBytes));
      case BytesItem(_, PrefixedBytes(lengthSize, _)) =>
        return Ok(Meta(OpenSize(lengthSize), fixedBytes));
      case UintItem(_, size, custom) =>
        if custom.ConstantUint? {
          var serialized := new byte[size](_ => 0);
          ghost var blank := serialized[..];
          var end := SerializeUint(serialized, 0, custom.value, size);
          if end.Err? {
            return Err(end.error);
          }
          OverlayAll(blank, UintBytes(custom.value, size).value);
          return Ok(Meta(ExactSize(size),
                         if offset.Some? then fixedBytes + [(offset.value, serialized[..])] else fixedBytes));
        }
        return Ok(Meta(ExactSize(size), fixedBytes));
    }
  }

  /** createLayoutMeta. */
  method CreateLayoutMeta(layout: Layout, offset: Option<nat>, fixedBytes: FixedBytes) returns (r: Result<Meta>)
    ensures r == MetaOf(LayoutBounds(layout), PrependPairs(fixedBytes, LayoutFixed(layout, offset, NOTHING)))
    decreases layout, 1
  {
    var bounds, at, pairs := NOTHING, offset, fixedBytes;
    ghost var spec := PrependPairs(fixedBytes, LayoutFixed(layout, offset, NOTHING));
    ghost var total := LayoutBounds(layout);
    assert layout[0..] == layout;
    PlusNothing(total);
    for i := 0 to |layout|
      invariant total == bounds.Plus(LayoutBounds(layout[i..]))
      invariant spec == PrependPairs(pairs, LayoutFixed(layout[i..], at, bounds))
    {
      MetaNext(layout, i, at, bounds, pairs);
      var meta := LayoutItemMeta(layout[i], at, pairs);
      if meta.Err? {
        return Err(meta.error);
      }
      bounds := bounds.Plus(meta.value.bounds);
      pairs := meta.value.fixedBytes;
      at := if bounds.upper == Some(bounds.lower) then Some(bounds.lower) else None;
    }
    MetaEnd(layout, at, bounds, pairs);
    assert spec == Ok(pairs);
    assert total == bounds;
    return Ok(Meta(bounds, pairs));
  }

  function MetaOf(bounds: Bounds, fixed: Result<FixedBytes>): Result<Meta> {
    if fixed.Ok? then Ok(Meta(bounds, fixed.value)) else Err(fixed.error)
  }

  lemma PlusNothing(b: Bounds)
    ensures NOTHING.Plus(b) == b && b.Plus(NOTHING) == b
  {
    match b.upper
    case None =>
    case Some(_) =>
  }

  lemma MetaEnd(layout: Layout, at: Option<nat>, sofar: Bounds, pairs: FixedBytes)
    ensures sofar.Plus(LayoutBounds(layout[|layout|..])) == sofar
    ensures PrependPairs(pairs, LayoutFixed(layout[|layout|..], at, sofar)) == Ok(pairs)
  {
    PlusNothing(sofar);
    assert pairs + [] == pairs;
  }

  function PrependPairs(done: FixedBytes, rest: Result<FixedBytes>): Result<FixedBytes> {
    if rest.Ok? then Ok(done + rest.value) else rest
  }

  /** One round of the loop of createLayoutMeta. */
  lemma MetaNext(layout: Layout, i: nat, at: Option<nat>, sofar: Bounds, pairs: FixedBytes)
    requires i < |layout|
    ensures var first, next := ItemFixed(layout[i], at), sofar.Plus(ItemBounds(layout[i]));
            && sofar.Plus(LayoutBounds(layout[i..])) == next.Plus(LayoutBounds(layout[i + 1..]))
            && PrependPairs(pairs, LayoutFixed(layout[i..], at, sofar)) ==
                 if first.Err? then first
                 else PrependPairs(pairs + first.value, LayoutFixed(layout[i + 1..], next.End(), next))
  {
    assert layout[i..][1..] == layout[i + 1..];
    var first, next := ItemFixed(layout[i], at), sofar.Plus(ItemBounds(layout[i]));
    var rest := LayoutFixed(layout[i + 1..], next.End(), next);
    if first.Ok? && rest.Ok? {
      assert pairs + (first.value + rest.value) == pairs + first.value + rest.value;
    }
  }

  // ---- the constants and their true offsets -----------------------------------------------

  predicate ItemConstantsFit(item: Item)
    decreases item
  {
    if item.ObjectItem? then ConstantsFit(item.layout)
    else KnownConstant(item).Some? ==> KnownConstant(item).value.Ok?
  }

  /** Every constant uint fits the size of its item. */
  predicate ConstantsFit(layout: Layout)
    decreases layout
  {
    |layout| > 0 ==> ItemConstantsFit(layout[0]) && ConstantsFit(layout[1..])
  }

  lemma {:induction false} FixedJustIfConstantsFit(layout: Layout, offset: Option<nat>, sofar: Bounds)
    ensures LayoutFixed(layout, offset, sofar).Ok? <==> ConstantsFit(layout)
    decreases layout
  {
    if |layout| > 0 {
      var next := sofar.Plus(ItemBounds(layout[0]));
      ItemFixedJustIfConstantsFit(layout[0], offset);
      FixedJustIfConstantsFit(layout[1..], next.End(), next);
    }
  }

  lemma {:induction false} ItemFixedJustIfConstantsFit(item: Item, offset: Option<nat>)
    ensures ItemFixed(item, offset).Ok? <==> ItemConstantsFit(item)
    decreases item
  {
    if item.ObjectItem? {
      FixedJustIfConstantsFit(item.layout, offset, NOTHING);
    }
  }

  /** As ItemFixed, but `before` bounds all that comes before the item, outside the layout it is nested in, too. */
  function ItemPairs(item: Item, before: Bounds): FixedBytes
    requires ItemConstantsFit(item)
    decreases item
  {
    if item.ObjectItem? then TruePairs(item.layout, before)
    else if KnownConstant(item).Some? && before.End().Some? then [(before.End().value, KnownConstant(item).value.value)]
    else []
  }

  /** Every constant whose offset into the data is known, at that offset. */
  function TruePairs(layout: Layout, before: Bounds): FixedBytes
    requires ConstantsFit(layout)
    decreases layout
  {
    if |layout| == 0 then []
    else ItemPairs(layout[0], before) + TruePairs(layout[1..], before.Plus(ItemBounds(layout[0])))
  }

  predicate Appears(pair: (nat, bytes), encoded: bytes) {
    pair.0 + |pair.1| <= |encoded| && encoded[pair.0..pair.0 + |pair.1|] == pair.1
  }

  lemma AppearsLonger(pair: (nat, bytes), encoded: bytes, more: bytes)
    requires Appears(pair, encoded)
    ensures Appears(pair, encoded + more)
  {
    assert (encoded + more)[pair.0..pair.0 + |pair.1|] == encoded[pair.0..pair.0 + |pair.1|];
  }

  lemma JoinAppear(a: FixedBytes, b: FixedBytes, done: bytes, first: bytes, rest: bytes)
    requires forall pair <- a :: Appears(pair, done + first)
    requires forall pair <- b :: Appears(pair, done + first + rest)
    ensures forall pair <- a + b :: Appears(pair, done + (first + rest))
  {
    assert done + first + rest == done + (first + rest);
    forall pair <- a
      ensures Appears(pair, done + (first + rest))
    {
      AppearsLonger(pair, done + first, rest);
    }
  }

  /** The true pairs are found in every serialization, for every layout. */
  lemma {:induction false} TruePairsAppear(layout: Layout, data: Value, before: Bounds, done: bytes)
    requires ConstantsFit(layout) && before.Contains(|done|) && LayoutBytes(layout, data).Ok?
    ensures forall pair <- TruePairs(layout, before) :: Appears(pair, done + LayoutBytes(layout, data).value)
    decreases layout
  {
    if |layout| > 0 {
      var item, v := layout[0], Field(data, layout[0].name).value;
      var first, rest := ItemBytes(item, v).value, LayoutBytes(layout[1..], data).value;
      var next := before.Plus(ItemBounds(item));
      ItemPairsAppear(item, v, before, done);
      ItemBoundsHold(item, v);
      TruePairsAppear(layout[1..], data, next, done + first);
      JoinAppear(ItemPairs(item, before), TruePairs(layout[1..], next), done, first, rest);
    }
  }

  lemma {:induction false} ItemPairsAppear(item: Item, v: Value, before: Bounds, done: bytes)
    requires ItemConstantsFit(item) && before.Contains(|done|) && ItemBytes(item, v).Ok?
    ensures forall pair <- ItemPairs(item, before) :: Appears(pair, done + ItemBytes(item, v).value)
    decreases item
  {
    var first := ItemBytes(item, v).value;
    if item.ObjectItem? {
      TruePairsAppear(item.layout, v, before, done);
    } else if before.End().Some? && KnownConstant(item).Some? {
      assert (done + first)[|done|..|done| + |first|] == first;
    }
  }

  // ---- when the recorded offsets are the true ones ----------------------------------------

  /** An object item that starts elsewhere than at offset zero records constants only in its first item. */
  predicate ItemAnchored(item: Item, before: Bounds)
    decreases item
  {
    item.ObjectItem? && item.layout != [] ==>
      if before == NOTHING then Anchored(item.layout, NOTHING)
      else
        var first := NOTHING.Plus(ItemBounds(item.layout[0]));
        ItemAnchored(item.layout[0], before) && LayoutFixed(item.layout[1..], first.End(), first) == Ok([])
  }

  predicate Anchored(layout: Layout, before: Bounds)
    decreases layout
  {
    |layout| > 0 ==> ItemAnchored(layout[0], before) && Anchored(layout[1..], before.Plus(ItemBounds(layout[0])))
  }

  /** What is recorded for a layout is the truth if and only if the layout is anchored. */
  lemma RecordedJustIfAnchored(layout: Layout)
    requires ConstantsFit(layout)
    ensures LayoutFixed(layout, Some(0), NOTHING) == Ok(TruePairs(layout, NOTHING)) <==> Anchored(layout, NOTHING)
  {
    RecordedAfter(layout, NOTHING);
  }

  lemma {:induction false} RecordedAfter(layout: Layout, before: Bounds)
    requires ConstantsFit(layout) && before.Contains(before.lower)
    ensures LayoutFixed(layout, before.End(), before).Ok?
    ensures var recorded, pairs := LayoutFixed(layout, before.End(), before).value, TruePairs(layout, before);
            |pairs| <= |recorded| && (recorded == pairs <==> Anchored(layout, before))
    decreases layout
  {
    if |layout| > 0 {
      var next := before.Plus(ItemBounds(layout[0]));
      ItemRecorded(layout[0], before);
      ItemBoundsProper(layout[0]);
      RecordedAfter(layout[1..], next);
      SplitEqual(ItemFixed(layout[0], before.End()).value, LayoutFixed(layout[1..], next.End(), next).value,
                 ItemPairs(layout[0], before), TruePairs(layout[1..], next));
    }
  }

  lemma {:induction false} ItemRecorded(item: Item, before: Bounds)
    requires ItemConstantsFit(item) && before.Contains(before.lower)
    ensures ItemFixed(item, before.End()).Ok?
    ensures var recorded, pairs := ItemFixed(item, before.End()).value, ItemPairs(item, before);
            |pairs| <= |recorded| && (recorded == pairs <==> ItemAnchored(item, before))
    decreases item
  {
    if item.ObjectItem? && item.layout != [] {
      if before == NOTHING {
        RecordedAfter(item.layout, NOTHING);
      } else {
        NestedRecorded(item.layout, before);
      }
    }
  }

  /** A nested layout that starts elsewhere than at offset zero, or nobody knows where. */
  lemma {:induction false} NestedRecorded(layout: Layout, before: Bounds)
    requires layout != [] && ConstantsFit(layout) && before.Contains(before.lower) && before != NOTHING
    ensures LayoutFixed(layout, before.End(), NOTHING).Ok?
    ensures var recorded, pairs := LayoutFixed(layout, before.End(), NOTHING).value, TruePairs(layout, before);
            var first := NOTHING.Plus(ItemBounds(layout[0]));
            && |pairs| <= |recorded|
            && (recorded == pairs <==>
                  ItemAnchored(layout[0], before) && LayoutFixed(layout[1..], first.End(), first) == Ok([]))
    decreases layout, 0
  {
    var first, next := NOTHING.Plus(ItemBounds(layout[0])), before.Plus(ItemBounds(layout[0]));
    ItemRecorded(layout[0], before);
    ItemBoundsProper(layout[0]);
    AstrayRecorded(layout[1..], first.End(), first, next);
    SplitEqual(ItemFixed(layout[0], before.End()).value, LayoutFixed(layout[1..], first.End(), first).value,
               ItemPairs(layout[0], before), TruePairs(layout[1..], next));
  }

  /** An offset that is too small, or recorded where the true one is not known. */
  predicate Astray(offset: Option<nat>, before: Bounds) {
    before.End().Some? ==> offset.Some? && offset.value < before.lower
  }

  /** With offsets that go astray, what is recorded is right only if it is nothing. */
  lemma {:induction false} AstrayRecorded(layout: Layout, offset: Option<nat>, sofar: Bounds, before: Bounds)
    requires ConstantsFit(layout) && before.Contains(before.lower) && sofar.Contains(sofar.lower)
    requires Astray(offset, before) && Astray(sofar.End(), before)
    ensures LayoutFixed(layout, offset, sofar).Ok?
    ensures var recorded, pairs := LayoutFixed(layout, offset, sofar).value, TruePairs(layout, before);
            |pairs| <= |recorded| && (recorded == pairs <==> recorded == [])
    decreases layout
  {
    if |layout| > 0 {
      var next, after := sofar.Plus(ItemBounds(layout[0])), before.Plus(ItemBounds(layout[0]));
      ItemBoundsProper(layout[0]);
      AstrayItem(layout[0], offset, before);
      AstrayRecorded(layout[1..], next.End(), next, after);
      SplitEqual(ItemFixed(layout[0], offset).value, LayoutFixed(layout[1..], next.End(), next).value,
                 ItemPairs(layout[0], before), TruePairs(layout[1..], after));
    }
  }

  lemma {:induction false} AstrayItem(item: Item, offset: Option<nat>, before: Bounds)
    requires ItemConstantsFit(item) && before.Contains(before.lower) && Astray(offset, before)
    ensures ItemFixed(item, offset).Ok?
    ensures var recorded, pairs := ItemFixed(item, offset).value, ItemPairs(item, before);
            |pairs| <= |recorded| && (recorded == pairs <==> recorded == [])
    decreases item
  {
    if item.ObjectItem? {
      AstrayRecorded(item.layout, offset, NOTHING, before);
    }
  }

  /** Concatenations of which one has no part shorter than the other are equal just if the parts are. */
  lemma SplitEqual(a: FixedBytes, b: FixedBytes, c: FixedBytes, d: FixedBytes)
    requires |c| <= |a| && |d| <= |b|
    ensures a + b == c + d <==> a == c && b == d
  {
    if a + b == c + d {
      assert |a| == |c|;
      assert (a + b)[..|a|] == a && (c + d)[..|c|] == c;
      assert (a + b)[|a|..] == b && (c + d)[|c|..] == d;
    }
  }

  lemma {:induction false} BoundsProper(layout: Layout)
    ensures LayoutBounds(layout).Contains(LayoutBounds(layout).lower)
    decreases layout
  {
    if |layout| > 0 {
      ItemBoundsProper(layout[0]);
      BoundsProper(layout[1..]);
    }
  }

  lemma {:induction false} ItemBoundsProper(item: Item)
    ensures ItemBounds(item).Contains(ItemBounds(item).lower)
    decreases item
  {
    if item.ObjectItem? {
      BoundsProper(item.layout);
    }
  }

  /** An item that is not, and does not hold, a constant that is recorded. */
  predicate Unmarked(item: Item)
    decreases item
  {
    if item.ObjectItem? then AllUnmarked(item.layout) else KnownConstant(item).None?
  }

  predicate AllUnmarked(layout: Layout)
    decreases layout
  {
    |layout| > 0 ==> Unmarked(layout[0]) && AllUnmarked(layout[1..])
  }

  /** A layout whose objects, wherever they stand, hold no constants; a flat one, without objects, is such a layout. */
  predicate ObjectsUnmarked(layout: Layout) {
    forall i | 0 <= i < |layout| :: layout[i].ObjectItem? ==> Unmarked(layout[i])
  }

  lemma {:induction false} UnmarkedRecordsNothing(layout: Layout, offset: Option<nat>, sofar: Bounds)
    requires AllUnmarked(layout)
    ensures LayoutFixed(layout, offset, sofar) == Ok([])
    decreases layout
  {
    if |layout| > 0 {
      var next := sofar.Plus(ItemBounds(layout[0]));
      if layout[0].ObjectItem? {
        UnmarkedRecordsNothing(layout[0].layout, offset, NOTHING);
      }
      UnmarkedRecordsNothing(layout[1..], next.End(), next);
      var none: FixedBytes := [];
      assert none + none == none;
    }
  }

  lemma {:induction false} UnmarkedIsAnchored(item: Item, before: Bounds)
    requires Unmarked(item)
    ensures ItemAnchored(item, before)
    decreases item
  {
    if item.ObjectItem? && item.layout != [] {
      AllUnmarkedIsAnchored(item.layout, before);
      if before != NOTHING {
        var first := NOTHING.Plus(ItemBounds(item.layout[0]));
        UnmarkedRecordsNothing(item.layout[1..], first.End(), first);
      }
    }
  }

  lemma {:induction false} AllUnmarkedIsAnchored(layout: Layout, before: Bounds)
    requires AllUnmarked(layout)
    ensures Anchored(layout, before)
    decreases layout
  {
    if |layout| > 0 {
      UnmarkedIsAnchored(layout[0], before);
      AllUnmarkedIsAnchored(layout[1..], before.Plus(ItemBounds(layout[0])));
    }
  }

  lemma {:induction false} ObjectsUnmarkedIsAnchored(layout: Layout, before: Bounds)
    requires ObjectsUnmarked(layout)
    ensures Anchored(layout, before)
    decreases layout
  {
    if |layout| > 0 {
      if layout[0].ObjectItem? {
        UnmarkedIsAnchored(layout[0], before);
      }
      ObjectsUnmarkedIsAnchored(layout[1..], before.Plus(ItemBounds(layout[0])));
    }
  }

  /** Every recorded pair is found at its offset in every serialization of an anchored layout. */
  lemma FixedBytesAppear(layout: Layout, data: Value)
    requires Anchored(layout, NOTHING)
    requires LayoutFixed(layout, Some(0), NOTHING).Ok? && LayoutBytes(layout, data).Ok?
    ensures forall pair <- LayoutFixed(layout, Some(0), NOTHING).value ::
              Appears(pair, LayoutBytes(layout, data).value)
  {
    var encoded := LayoutBytes(layout, data).value;
    FixedJustIfConstantsFit(layout, Some(0), NOTHING);
    RecordedJustIfAnchored(layout);
    TruePairsAppear(layout, data, NOTHING, []);
    assert [] + encoded == encoded;
  }

  lemma OneByteUint(b: byte)
    ensures UintBytes(Num(b), 1) == Ok([b])
  {
    assert Pow256(0) == 1 && Pow256(1) == 256 * Pow256(0);
    assert Digits(b, 1) == [b];
  }

  /** One plain byte, then the constant 7. */
  const TAGGED := [UintItem("c", 1, PlainUint), UintItem("d", 1, ConstantUint(Num(7), true))]

  lemma TaggedMeta()
    ensures LayoutFixed(TAGGED, Some(1), NOTHING) == Ok([(1, [7])])
  {
    OneByteUint(7);
    var pairs: FixedBytes := [(1, [7])];
    assert pairs + [] == pairs && [] + pairs == pairs;
    assert TAGGED[1..] == [TAGGED[1]] && TAGGED[1..][1..] == [];
    assert ItemFixed(TAGGED[1], Some(1)) == Ok(pairs);
    assert LayoutFixed(TAGGED[1..], Some(1), ExactSize(1)) == Ok(pairs);
  }

  lemma TaggedBytes()
    ensures LayoutBytes(TAGGED, RecordV(map["c" := UintV(Num(0))])) == Ok([0, 7])
  {
    OneByteUint(7);
    OneByteUint(0);
    var nested := RecordV(map["c" := UintV(Num(0))]);
    assert TAGGED[1..] == [TAGGED[1]] && TAGGED[1..][1..] == [];
    assert [7] + [] == [7] && [0] + [7] == [0, 7];
    assert FieldBytes(TAGGED[1], nested) == Ok([7]) && FieldBytes(TAGGED[0], nested) == Ok([0]);
    assert LayoutBytes(TAGGED[1..], nested) == Ok([7]);
  }

  const WRAPPED := [UintItem("a", 1, PlainUint), ObjectItem("b", TAGGED)]

  const WRAPPED_DATA := RecordV(map["a" := UintV(Num(0)), "b" := RecordV(map["c" := UintV(Num(0))])])

  /** Not so for other layouts: WRAPPED is not anchored, and its constant is recorded one byte before its place. */
  lemma NestedOffsetsAreRelative()
    ensures !Anchored(WRAPPED, NOTHING)
    ensures LayoutFixed(WRAPPED, Some(0), NOTHING) == Ok([(1, [7])])
    ensures LayoutBytes(WRAPPED, WRAPPED_DATA) == Ok([0, 0, 7])
    ensures !Appears((1, [7]), [0, 0, 7])
  {
    WrappedMeta();
    WrappedBytes();
    assert [0, 0, 7][1..2] == [0];
    var pairs: FixedBytes := [(1, [7])];
    assert pairs[0] in pairs;
    if Anchored(WRAPPED, NOTHING) {
      FixedBytesAppear(WRAPPED, WRAPPED_DATA);
      assert false;
    }
  }

  lemma WrappedMeta()
    ensures LayoutFixed(WRAPPED, Some(0), NOTHING) == Ok([(1, [7])])
  {
    TaggedMeta();
    var outer, pairs: FixedBytes := WRAPPED[1..], [(1, [7])];
    assert outer == [WRAPPED[1]] && outer[1..] == [];
    assert pairs + [] == pairs && [] + pairs == pairs;
    assert LayoutFixed(outer, Some(1), ExactSize(1)) == Ok(pairs);
  }

  lemma WrappedBytes()
    ensures LayoutBytes(WRAPPED, WRAPPED_DATA) == Ok([0, 0, 7])
  {
    OneByteUint(0);
    TaggedBytes();
    var outer := WRAPPED[1..];
    assert outer == [WRAPPED[1]] && outer[1..] == [];
    assert [0, 7] + [] == [0, 7] && [0] + [0, 7] == [0, 0, 7];
    assert FieldBytes(WRAPPED[0], WRAPPED_DATA) == Ok([0]) && FieldBytes(WRAPPED[1], WRAPPED_DATA) == Ok([0, 7]);
    assert LayoutBytes(outer, WRAPPED_DATA) == Ok([0, 7]);
  }

  // ---- where fixed bytes can be -----------------------------------------------------------

  predicate Covers(pair: (nat, bytes), p: nat) {
    pair.0 <= p < pair.0 + |pair.1|
  }

  /** The values recorded at position `p`. */
  function ValuesAt(pairs: FixedBytes, p: nat): seq<byte> {
    if pairs == [] then []
    else if Covers(pairs[0], p) then [pairs[0].1[p - pairs[0].0]] + ValuesAt(pairs[1..], p)
    else ValuesAt(pairs[1..], p)
  }

  lemma {:induction false} ValuesAtAppend(a: FixedBytes, b: FixedBytes, p: nat)
    ensures ValuesAt(a + b, p) == ValuesAt(a, p) + ValuesAt(b, p)
  {
    if a == [] {
      assert a + b == b;
    } else {
      ValuesAtAppend(a[1..], b, p);
      assert (a + b)[0] == a[0] && (a + b)[1..] == a[1..] + b;
      if Covers(a[0], p) {
        Associate([a[0].1[p - a[0].0]], ValuesAt(a[1..], p), ValuesAt(b, p));
      }
    }
  }

  /** What is recorded at a position is what every serialization has there. */
  lemma {:induction false} ValuesAtAppear(pairs: FixedBytes, p: nat, encoded: bytes)
    requires forall pair <- pairs :: Appears(pair, encoded)
    ensures forall v <- ValuesAt(pairs, p) :: p < |encoded| && encoded[p] == v
  {
    if pairs != [] {
      ValuesAtAppear(pairs[1..], p, encoded);
      if Covers(pairs[0], p) {
        assert Appears(pairs[0], encoded);
        assert encoded[pairs[0].0..pairs[0].0 + |pairs[0].1|][p - pairs[0].0] == encoded[p];
      }
    }
  }

  /** At most one value per position, and none at or past the lower bound. */
  lemma OneValuePerPosition(layout: Layout, p: nat)
    requires Anchored(layout, NOTHING) && LayoutFixed(layout, Some(0), NOTHING).Ok?
    ensures |ValuesAt(LayoutFixed(layout, Some(0), NOTHING).value, p)| <= 1
    ensures p >= LayoutBounds(layout).lower ==> ValuesAt(LayoutFixed(layout, Some(0), NOTHING).value, p) == []
  {
    FixedJustIfConstantsFit(layout, Some(0), NOTHING);
    RecordedJustIfAnchored(layout);
    OneTrueValue(layout, NOTHING, p);
  }

  lemma {:induction false} OneTrueValue(layout: Layout, before: Bounds, p: nat)
    requires ConstantsFit(layout)
    ensures var values := ValuesAt(TruePairs(layout, before), p);
            && |values| <= 1
            && (p < before.lower || p >= before.lower + LayoutBounds(layout).lower ==> values == [])
    decreases layout
  {
    if |layout| > 0 {
      var next := before.Plus(ItemBounds(layout[0]));
      OneItemValue(layout[0], before, p);
      OneTrueValue(layout[1..], next, p);
      ValuesAtAppend(ItemPairs(layout[0], before), TruePairs(layout[1..], next), p);
    }
  }

  lemma {:induction false} OneItemValue(item: Item, before: Bounds, p: nat)
    requires ItemConstantsFit(item)
    ensures var values := ValuesAt(ItemPairs(item, before), p);
            && |values| <= 1
            && (p < before.lower || p >= before.lower + ItemBounds(item).lower ==> values == [])
    decreases item
  {
    if item.ObjectItem? {
      OneTrueValue(item.layout, before, p);
    }
  }

  lemma {:induction false} PairsWithinBounds(layout: Layout, before: Bounds)
    requires ConstantsFit(layout)
    ensures forall pair <- TruePairs(layout, before) ::
              before.lower <= pair.0 && pair.0 + |pair.1| <= before.lower + LayoutBounds(layout).lower
    decreases layout
  {
    if |layout| > 0 {
      PairsWithinBounds(layout[1..], before.Plus(ItemBounds(layout[0])));
      if layout[0].ObjectItem? {
        PairsWithinBounds(layout[0].layout, before);
      }
    }
  }

  /** No pair reaches beyond the last one. */
  predicate LastEndsLast(pairs: FixedBytes) {
    forall pair <- pairs :: pair.0 + |pair.1| <= pairs[|pairs| - 1].0 + |pairs[|pairs| - 1].1|
  }

  lemma LastOfBoth(a: FixedBytes, b: FixedBytes, middle: nat)
    requires LastEndsLast(a) && LastEndsLast(b)
    requires forall pair <- a :: pair.0 + |pair.1| <= middle
    requires forall pair <- b :: middle <= pair.0
    ensures LastEndsLast(a + b)
  {
    if b == [] {
      assert a + b == a;
    } else {
      assert (a + b)[|a + b| - 1] == b[|b| - 1] && b[|b| - 1] in b;
    }
  }

  lemma {:induction false} TruePairsEndLast(layout: Layout, before: Bounds)
    requires ConstantsFit(layout)
    ensures LastEndsLast(TruePairs(layout, before))
    decreases layout
  {
    if |layout| > 0 {
      var item, next := layout[0], before.Plus(ItemBounds(layout[0]));
      TruePairsEndLast(layout[1..], next);
      PairsWithinBounds(layout[1..], next);
      if item.ObjectItem? {
        TruePairsEndLast(item.layout, before);
        PairsWithinBounds(item.layout, before);
      }
      LastOfBoth(ItemPairs(item, before), TruePairs(layout[1..], next), next.lower);
    }
  }

  /** Nor does what is recorded for an anchored layout. */
  lemma LastPairEndsLast(layout: Layout)
    requires Anchored(layout, NOTHING) && LayoutFixed(layout, Some(0), NOTHING).Ok?
    ensures LastEndsLast(LayoutFixed(layout, Some(0), NOTHING).value)
  {
    FixedJustIfConstantsFit(layout, Some(0), NOTHING);
    RecordedJustIfAnchored(layout);
    TruePairsEndLast(layout, NOTHING);
  }
}
