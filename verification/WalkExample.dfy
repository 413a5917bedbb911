// A set of layouts that the strategy tree of discriminate.ts calls distinguishable, and one of whose serializations
// it has no answer for: the byte at the first position is none of the known ones, and no strategy was made for the
// layouts that are left then.
module WalkExample {
  import opened Common
  import opened Layouts
  import opened Serialize
  import opened LayoutMeta
  import opened OrderedMap
  import opened Sweep
  import opened Knowledge
  import opened ByteSteps
  import opened Strategies
  import opened Discriminate

  /** Three bytes each: three layouts that are all constant, and two whose first byte is free. */
  const FIVE := [[BytesItem("all", ConstantBytes([1, 1, 2], true))],
                 [BytesItem("all", ConstantBytes([2, 1, 2], true))],
                 [BytesItem("all", ConstantBytes([3, 1, 2], true))],
                 [UintItem("type", 1, PlainUint), BytesItem("tag", ConstantBytes([1, 1], true))],
                 [UintItem("type", 1, PlainUint), BytesItem("tag", ConstantBytes([2, 2], true))]]

  const FIVE_FIXED: seq<FixedBytes> := [[(0, [1, 1, 2])], [(0, [2, 1, 2])], [(0, [3, 1, 2])], [(1, [1, 1])], [(1, [2, 2])]]

  const FIVE_KNOWN := Known([ExactSize(3), ExactSize(3), ExactSize(3), ExactSize(3), ExactSize(3)], FIVE_FIXED)

  const FOURTH_DATA := RecordV(map["type" := UintV(Num(0))])

  /** A constant as the last item. */
  lemma ConstantMeta(name: string, c: bytes, offset: nat, sofar: Bounds)
    ensures var layout := [BytesItem(name, ConstantBytes(c, true))];
            LayoutFixed(layout, Some(offset), sofar) == Ok([(offset, c)]) && LayoutBounds(layout) == ExactSize(|c|)
  {
    var layout := [BytesItem(name, ConstantBytes(c, true))];
    var pairs: FixedBytes := [(offset, c)];
    assert layout[1..] == [] && pairs + [] == pairs;
    assert ItemFixed(layout[0], Some(offset)) == Ok(pairs);
    PlusNothing(ExactSize(|c|));
  }

  lemma TaggedMeta(tag: bytes)
    ensures var layout := [UintItem("type", 1, PlainUint), BytesItem("tag", ConstantBytes(tag, true))];
            LayoutFixed(layout, Some(0), NOTHING) == Ok([(1, tag)]) && LayoutBounds(layout) == ExactSize(1 + |tag|)
  {
    var layout := [UintItem("type", 1, PlainUint), BytesItem("tag", ConstantBytes(tag, true))];
    var pairs: FixedBytes := [(1, tag)];
    assert layout[1..] == [layout[1]] && [] + pairs == pairs;
    ConstantMeta("tag", tag, 1, ExactSize(1));
  }

  lemma FiveIsDescribed()
    ensures Describes(FIVE_KNOWN, FIVE) && FIVE_KNOWN.Valid()
  {
    ConstantMeta("all", [1, 1, 2], 0, NOTHING);
    ConstantMeta("all", [2, 1, 2], 0, NOTHING);
    ConstantMeta("all", [3, 1, 2], 0, NOTHING);
    TaggedMeta([1, 1]);
    TaggedMeta([2, 2]);
    DescribedIsValid(FIVE_KNOWN, FIVE);
  }

  lemma FourthSerializes()
    ensures Serializes(FIVE, 3, FOURTH_DATA, [0, 1, 1])
  {
    var fourth := FIVE[3];
    OneByteUint(0);
    assert fourth[1..] == [fourth[1]] && fourth[1..][1..] == [];
    assert [1, 1] + [] == [1, 1] && [0] + [1, 1] == [0, 1, 1];
    assert FieldBytes(fourth[0], FOURTH_DATA) == Ok([0]) && FieldBytes(fourth[1], FOURTH_DATA) == Ok([1, 1]);
    assert LayoutBytes(fourth[1..], FOURTH_DATA) == Ok([1, 1]);
  }

  // ---- what is known ----------------------------------------------------------------------

  lemma OnePair(offset: nat, c: bytes, p: nat)
    ensures ValuesAt([(offset, c)], p) == if offset <= p < offset + |c| then [c[p - offset]] else []
  {
    var pairs: FixedBytes := [(offset, c)];
    assert pairs[1..] == [];
  }

  /** The known bytes, position by position. */
  lemma Bytes(p: nat)
    ensures var at := (i: nat) requires i < 5 => ValuesAt(FIVE_FIXED[i], p);
            && (p == 0 ==> at(0) == [1] && at(1) == [2] && at(2) == [3] && at(3) == [] && at(4) == [])
            && (p == 1 ==> at(0) == [1] && at(1) == [1] && at(2) == [1] && at(3) == [1] && at(4) == [2])
            && (p == 2 ==> at(0) == [2] && at(1) == [2] && at(2) == [2] && at(3) == [1] && at(4) == [2])
            && (p >= 3 ==> at(0) == [] && at(1) == [] && at(2) == [] && at(3) == [] && at(4) == [])
  {
    OnePair(0, [1, 1, 2], p);
    OnePair(0, [2, 1, 2], p);
    OnePair(0, [3, 1, 2], p);
    OnePair(1, [1, 1], p);
    OnePair(1, [2, 2], p);
  }

  lemma FiveIsWellPlaced()
    ensures FIVE_KNOWN.Valid() && WellPlaced(FIVE_KNOWN)
  {
    forall i, p: nat | 0 <= i < 5
      ensures |ValuesAt(FIVE_FIXED[i], p)| <= 1 && (p >= 3 ==> ValuesAt(FIVE_FIXED[i], p) == [])
    {
      Bytes(p);
    }
  }

  // ---- the exits --------------------------------------------------------------------------

  lemma AllFive()
    ensures FIVE_KNOWN.Valid() && FIVE_KNOWN.All() == {0, 1, 2, 3, 4} && FIVE_KNOWN.WithSize(3) == {0, 1, 2, 3, 4}
  {
    assert forall b <- FIVE_KNOWN.bounds :: b == ExactSize(3);
  }

  lemma Lengths(p: nat)
    ensures FIVE_KNOWN.OutOfBounds(p) == if p < 3 then {} else {0, 1, 2, 3, 4}
    ensures FIVE_KNOWN.WithByteAt(p) == if p < 3 then {0, 1, 2, 3, 4} else {}
  {
    assert forall i | 0 <= i < 5 :: FIVE_KNOWN.bounds[i] == ExactSize(3);
  }

  function KnownAt(p: nat): Candidates {
    if p == 0 then {0, 1, 2} else if p < 3 then {0, 1, 2, 3, 4} else {}
  }

  function GroupAt(p: nat, v: byte): Candidates {
    if p == 0 then (if v == 1 then {0} else if v == 2 then {1} else if v == 3 then {2} else {})
    else if p == 1 then (if v == 1 then {0, 1, 2, 3} else if v == 2 then {4} else {})
    else if p == 2 then (if v == 1 then {3} else if v == 2 then {0, 1, 2, 4} else {})
    else {}
  }

  lemma Groups(p: nat, v: byte)
    requires FIVE_KNOWN.Valid()
    ensures FIVE_KNOWN.FixedAt(p) == KnownAt(p) && FIVE_KNOWN.FixedWith(p, v) == GroupAt(p, v)
  {
    Bytes(p);
    KnownSet(p);
    GroupSet(p, v);
  }

  lemma KnownSet(p: nat)
    requires FIVE_KNOWN.Valid()
    ensures FIVE_KNOWN.FixedAt(p) == KnownAt(p)
  {
    Bytes(p);
    assert FIVE_KNOWN.FixedAt(p) == set i | 0 <= i < 5 && ValuesAt(FIVE_FIXED[i], p) != [];
  }

  lemma GroupSet(p: nat, v: byte)
    requires FIVE_KNOWN.Valid()
    ensures FIVE_KNOWN.FixedWith(p, v) == GroupAt(p, v)
  {
    Bytes(p);
    assert FIVE_KNOWN.FixedWith(p, v) == set i | 0 <= i < 5 && v in ValuesAt(FIVE_FIXED[i], p);
  }

  lemma Largest(p: nat, v: byte, n: int)
    requires FIVE_KNOWN.Valid() && ByteEliminates(FIVE_KNOWN, FIVE_KNOWN.All(), p, n) && FIVE_KNOWN.FixedWith(p, v) != {}
    ensures n <= |FIVE_KNOWN.FixedAt(p)| - |FIVE_KNOWN.FixedWith(p, v)| + |FIVE_KNOWN.OutOfBounds(p)|
  {
    var k := FIVE_KNOWN;
    AllFive();
    assert k.FixedAt(p) * k.All() == k.FixedAt(p) && k.FixedWith(p, v) * k.All() == k.FixedWith(p, v);
    assert k.OutOfBounds(p) * k.All() == k.OutOfBounds(p);
  }

  lemma Sizes()
    ensures |{0, 1, 2, 3, 4}| == 5 && |{0, 1, 2, 3}| == 4 && |{0, 1, 2, 4}| == 4 && |{0, 1, 2}| == 3 && |{0}| == 1
  {
  }

  lemma Counts(p: nat, v: byte)
    requires FIVE_KNOWN.Valid() && p < 3 && v == if p == 2 then 2 else 1
    ensures |FIVE_KNOWN.FixedAt(p)| == if p == 0 then 3 else 5
    ensures |FIVE_KNOWN.FixedWith(p, v)| == if p == 0 then 1 else 4
    ensures FIVE_KNOWN.FixedWith(p, v) != {}
  {
    Groups(p, v);
    Sizes();
  }

  /** Among all layouts the first byte is sure to eliminate two, any other no more than one. */
  lemma Worth(p: nat, n: int)
    requires FIVE_KNOWN.Valid() && n > 1 && ByteEliminates(FIVE_KNOWN, FIVE_KNOWN.All(), p, n)
    ensures p == 0 && n == 2
  {
    if p < 3 {
      var v := if p == 2 then 2 else 1;
      Counts(p, v);
      Largest(p, v, n);
      Lengths(p);
    } else {
      Groups(p, 0);
    }
  }

  lemma FirstByteIsWorthTwo()
    requires FIVE_KNOWN.Valid()
    ensures ByteEliminates(FIVE_KNOWN, FIVE_KNOWN.All(), 0, 2)
  {
    var k, all := FIVE_KNOWN, {0, 1, 2, 3, 4};
    AllFive();
    Lengths(0);
    Groups(0, 0);
    assert {0, 1, 2} * all == {0, 1, 2};
    forall v: byte
      ensures |k.FixedWith(0, v) * all| <= 1
    {
      Groups(0, v);
      assert {0} * all == {0} && {1} * all == {1} && {2} * all == {2};
    }
  }

  lemma FiveAreToldApart()
    requires FIVE_KNOWN.Valid()
    ensures AllToldApart(FIVE_KNOWN)
  {
    forall i: nat, j: nat | i < j < 5
      ensures Apart(FIVE_KNOWN, i, j)
    {
      PairToldApart(i, j, if j < 3 then 0 else if j == 3 then 2 else 1);
    }
  }

  lemma PairToldApart(i: nat, j: nat, p: nat)
    requires FIVE_KNOWN.Valid() && i < j < 5 && p == if j < 3 then 0 else if j == 3 then 2 else 1
    ensures ToldApart(FIVE_KNOWN, p, i, j)
  {
    Bytes(p);
    var v, w := ValuesAt(FIVE_FIXED[i], p), ValuesAt(FIVE_FIXED[j], p);
    assert v[0] in v && w[0] in w && v[0] != w[0];
  }

  /** No byte alone is enough, and neither is the size. */
  lemma NotPerfect(p: nat, step: ByteStep)
    requires FIVE_KNOWN.Valid() && StepAt(FIVE_KNOWN, p, step)
    ensures step.power != 4
  {
    FiveIsWellPlaced();
    PowerEliminates(FIVE_KNOWN, p, step);
    Groups(p, 0);
    Lengths(p);
    if p < 3 {
      KnownHasGroup(FIVE_KNOWN, p, step, 0);
      if step.power == 4 {
        Worth(p, 4);
      }
    }
  }

  lemma OneSize()
    requires FIVE_KNOWN.Valid()
    ensures |FIVE_KNOWN.WithSize(3)| == 5 && !SizeEliminates(FIVE_KNOWN, FIVE_KNOWN.All(), 2)
  {
    AllFive();
    assert Overlap(FIVE_KNOWN, FIVE_KNOWN.All(), 0) == FIVE_KNOWN.All();
  }

  /** The first strategy looks at the first byte. */
  lemma FirstStrategy(d: Discriminator, distinguishable: bool)
    requires FIVE_KNOWN.Valid() && Generated(FIVE_KNOWN, d, distinguishable)
    ensures distinguishable && d.StrategyTree? && d.firstStrategy.ByByte? && d.firstStrategy.bytePos == 0
  {
    var k := FIVE_KNOWN;
    FiveIsWellPlaced();
    FiveAreToldApart();
    OneSize();
    if d.PerfectByte? {
      NotPerfect(d.step.bytePos, d.step);
    }
    if SomeAlike(k) {
      AlikeAreNotToldApart(k);
    }
    FirstByteIsWorthTwo();
    Lengths(0);
    AllFive();
    assert Eliminates(k, k.All(), d.firstStrategy, 2);
    if d.firstStrategy.ByByte? {
      Worth(d.firstStrategy.bytePos, 2);
    }
  }

  // ---- the walk ---------------------------------------------------------------------------

  /** No branch of any strategy leaves just the last two layouts. */
  lemma NotABranch(made: Candidates, s: Strategy)
    requires FIVE_KNOWN.Valid() && {3, 4} < made <= FIVE_KNOWN.All() && Sound(FIVE_KNOWN, made, s)
    ensures !Branch(FIVE_KNOWN, made, s, {3, 4})
  {
    var k := FIVE_KNOWN;
    FiveIsWellPlaced();
    AllFive();
    match s
    case Indistinguishable =>
    case BySize =>
      forall i | i in made
        ensures Overlap(k, made, i) == made
      {
        assert k.bounds[i] == ExactSize(3);
      }
    case ByByte(p, outOfBounds, distinct) =>
      Lengths(p);
      assert p >= 3 ==> outOfBounds == made;
      forall e | e in distinct
        ensures WithValue(k, made, p, e.0) != {3, 4}
      {
        NotAValueBranch(made, p, e.0);
      }
  }

  lemma NotAValueBranch(made: Candidates, p: nat, v: byte)
    requires FIVE_KNOWN.Valid() && {3, 4} < made && FIVE_KNOWN.FixedWith(p, v) * made != {}
    ensures WithValue(FIVE_KNOWN, made, p, v) != {3, 4}
  {
    var k := FIVE_KNOWN;
    Lengths(p);
    Groups(p, v);
    if p == 0 {
      var i :| i in k.FixedWith(p, v) * made;
      assert i in WithValue(k, made, p, v);
    } else {
      assert k.AnyAt(p) == {};
      assert !(3 in k.FixedWith(p, v) && 4 in k.FixedWith(p, v));
      assert WithValue(k, made, p, v) == {3, 4} ==> 3 in WithValue(k, made, p, v) && 4 in WithValue(k, made, p, v);
    }
  }

  lemma NotFiled(d: Discriminator)
    requires FIVE_KNOWN.Valid() && d.StrategyTree? && Fits(FIVE_KNOWN, d, true)
    ensures {3, 4} !in d.strategies
  {
    var k, left: Candidates := FIVE_KNOWN, {3, 4};
    FiveIsWellPlaced();
    if left in d.strategies {
      assert WellFiled(k, d.firstStrategy, d.strategies, left);
      if left < k.All() && Branch(k, k.All(), d.firstStrategy, left) {
        NotABranch(k.All(), d.firstStrategy);
      } else {
        var made :| made in d.strategies && left < made && Branch(k, made, d.strategies[made], left);
        NotABranch(made, d.strategies[made]);
      }
      assert false;
    }
  }

  lemma NoStrategy(d: Discriminator)
    requires FIVE_KNOWN.Valid() && d.StrategyTree? && Fits(FIVE_KNOWN, d, true)
    ensures StrategyFor(d, {3, 4}) == None
  {
    var left: Candidates := {3, 4};
    NotFiled(d);
    StrategyForIsFiled(d, left);
    assert |left| == 2;
    forall c | c in d.strategies && left < c
      ensures |c| >= 3
    {
      SmallerCount(left, c);
    }
  }

  lemma AnyFirstByte()
    requires FIVE_KNOWN.Valid()
    ensures WithValue(FIVE_KNOWN, FIVE_KNOWN.All(), 0, 0) == {3, 4}
  {
    AllFive();
    Lengths(0);
    Groups(0, 0);
    assert FIVE_KNOWN.AnyAt(0) == {3, 4};
  }

  lemma LeftByFirst(s: Strategy)
    requires FIVE_KNOWN.Valid() && s.ByByte? && s.bytePos == 0 && Sound(FIVE_KNOWN, FIVE_KNOWN.All(), s)
    ensures Remaining(FIVE_KNOWN, s, FIVE_KNOWN.All(), [0, 1, 1]) == {3, 4}
  {
    var k := FIVE_KNOWN;
    FiveIsWellPlaced();
    RemainingIsBranch(k, k.All(), s, [0, 1, 1]);
    AnyFirstByte();
  }

  /**
   * The layouts are distinguishable, and [0, 1, 1] is a serialization of the fourth. But its first byte is none of
   * the known ones, no strategy is filed for the two layouts that are left, and for so few layouts
   * findSmallestSuperSetStrategy does not look for one of more candidates: it throws.
   */
  lemma FourthIsNotFound(d: Discriminator, distinguishable: bool)
    requires FIVE_KNOWN.Valid() && Generated(FIVE_KNOWN, d, distinguishable)
    ensures distinguishable && Answer(d, FIVE_KNOWN, [0, 1, 1]) == Throws
  {
    FirstStrategy(d, distinguishable);
    LeftByFirst(d.firstStrategy);
    NoStrategy(d);
    var left: Candidates := {3, 4};
    assert |left| == 2;
  }
}
