// Two sets of layouts that the perfect byte exit of discriminate.ts gets wrong. At a position that no
// layout fixes, the power only counts who is too short, but the answer only looks at fixed values; and a
// layout counts as too short wherever it need not have a byte, though its data may have one.
module GapExample {
  import opened Common
  import opened Layouts
  import opened Serialize
  import opened LayoutMeta
  import opened OrderedMap
  import opened Sweep
  import opened Knowledge
  import opened ByteSteps
  import opened Strategies
  import opened Discriminate

  /** One byte; or two bytes and the constant 7. No layout fixes the byte at position 1. */
  const GAP := [[UintItem("type", 1, PlainUint)],
                [UintItem("type", 1, PlainUint), UintItem("data", 1, PlainUint),
                 UintItem("tag", 1, ConstantUint(Num(7), true))]]

  const GAP_KNOWN := Known([ExactSize(1), ExactSize(3)], [[], [(2, [7])]])

  const GAP_DATA := RecordV(map["type" := UintV(Num(0)), "data" := UintV(Num(0))])

  lemma GapIsDescribed()
    ensures Describes(GAP_KNOWN, GAP) && GAP_KNOWN.Valid()
  {
    var long := GAP[1];
    var pairs: FixedBytes := [(2, [7])];
    OneByteUint(7);
    assert GAP[0][1..] == [];
    var none: FixedBytes := [];
    assert none + none == none;
    assert LayoutFixed(GAP[0], Some(0), NOTHING) == Ok(none);
    assert LayoutBounds(GAP[0]) == ExactSize(1);
    assert long[1..][1..] == long[2..] && long[2..][1..] == [];
    assert pairs + [] == pairs && [] + pairs == pairs;
    assert LayoutFixed(long[2..], Some(2), ExactSize(2)) == Ok(pairs);
    assert LayoutFixed(long[1..], Some(1), ExactSize(1)) == Ok(pairs);
    assert LayoutBounds(long[2..]) == ExactSize(1) && LayoutBounds(long[1..]) == ExactSize(2);
    assert LayoutFixed(long, Some(0), NOTHING) == Ok(pairs) && LayoutBounds(long) == ExactSize(3);
    DescribedIsValid(GAP_KNOWN, GAP);
  }

  lemma GapSerializes()
    ensures Serializes(GAP, 1, GAP_DATA, [0, 0, 7])
  {
    var long := GAP[1];
    OneByteUint(7);
    OneByteUint(0);
    assert long[1..][1..] == long[2..] && long[2..][1..] == [];
    assert [7] + [] == [7] && [0] + [7] == [0, 7] && [0] + [0, 7] == [0, 0, 7];
    assert LayoutBytes(long[2..], GAP_DATA) == Ok([7]);
    assert LayoutBytes(long[1..], GAP_DATA) == Ok([0, 7]);
  }

  /** Positions 0 and 1 have no known byte; the power counts who is sure to have a byte there. */
  lemma GapStep(p: nat, step: ByteStep)
    requires p < 2 && GAP_KNOWN.Valid() && StepAt(GAP_KNOWN, p, step)
    ensures step.distinct == [] && step.power == |GAP_KNOWN.WithByteAt(p)|
  {
    GapColumn(p);
    EmptyColumn(GAP_KNOWN, p, step);
  }

  lemma EmptyColumn(k: Known, p: nat, step: ByteStep)
    requires k.Valid() && StepAt(k, p, step) && ColumnOf(k.fixed, |k.fixed|, p) == []
    ensures step.distinct == [] && step.power == |k.WithByteAt(p)|
  {
    if step.distinct != [] {
      GroupsHaveMembers(step.distinct, []);
      assert false;
    }
  }

  lemma GroupsHaveMembers(groups: ByValue, column: Column)
    requires Grouped(groups, column) && groups != []
    ensures column != []
  {
    var e := groups[0];
    assert e in groups;
    var i: nat :| i in e.1;
    assert (e.0, i) in column;
  }

  lemma GapColumn(p: nat)
    requires p < 2
    ensures ColumnOf(GAP_KNOWN.fixed, 2, p) == []
  {
    assert GAP_KNOWN.fixed[1][1..] == [];
    assert ValuesAt(GAP_KNOWN.fixed[1], p) == [];
    assert ColumnOf(GAP_KNOWN.fixed, 0, p) == [];
    assert ColumnOf(GAP_KNOWN.fixed, 1, p) == [];
  }

  lemma GapPowers()
    ensures |GAP_KNOWN.WithByteAt(0)| == 2 && |GAP_KNOWN.WithByteAt(1)| == 1 && |GAP_KNOWN.bounds| == 2
    ensures Width(GAP_KNOWN.fixed) > 1
  {
    assert GAP_KNOWN.WithByteAt(1) == {1} && GAP_KNOWN.WithByteAt(0) == {0, 1};
    var fixed := GAP_KNOWN.fixed;
    assert fixed[|fixed| - 1] == [(2, [7])];
  }

  /**
   * Position 0 has more than full power and is passed over; position 1 has full power and is taken.
   * The serialization [0, 0, 7] of the long layout is then answered with no layout at all.
   */
  lemma GapIsMissed(d: Discriminator, distinguishable: bool)
    requires GAP_KNOWN.Valid() && Generated(GAP_KNOWN, d, distinguishable)
    ensures d.PerfectByte? && d.step.bytePos == 1
    ensures ByteAnswer(d.step, [0, 0, 7]) == {}
  {
    GapPowers();
    if !d.PerfectByte? || d.step.bytePos > 1 {
      assert Imperfect(GAP_KNOWN, 1);
      var step :| StepAt(GAP_KNOWN, 1, step) && (step.power == 0 || step.power != |GAP_KNOWN.bounds| - 1);
      GapStep(1, step);
      assert false;
    }
    GapStep(d.step.bytePos, d.step);
  }

  // ---- a layout that is there twice -------------------------------------------------------

  /** With the long layout once more, two layouts of three have a byte at position 1, which again passes for full power. */
  const TWINS := GAP + [GAP[1]]

  const TWINS_KNOWN := Known([ExactSize(1), ExactSize(3), ExactSize(3)], [[], [(2, [7])], [(2, [7])]])

  lemma TwinsAreDescribed()
    ensures Describes(TWINS_KNOWN, TWINS) && TWINS_KNOWN.Valid() && TWINS[1] == TWINS[2]
  {
    GapIsDescribed();
    assert TWINS[0] == GAP[0] && TWINS[1] == TWINS[2] == GAP[1];
    assert GAP_KNOWN.fixed[0] == [] && GAP_KNOWN.fixed[1] == [(2, [7])];
    DescribedIsValid(TWINS_KNOWN, TWINS);
  }

  lemma TwinsColumn()
    ensures ColumnOf(TWINS_KNOWN.fixed, 3, 1) == [] && Width(TWINS_KNOWN.fixed) > 1
  {
    var fixed := TWINS_KNOWN.fixed;
    assert fixed[1][1..] == [] && ValuesAt(fixed[1], 1) == [] && ValuesAt(fixed[0], 1) == [];
    assert ColumnOf(fixed, 0, 1) == [] && ColumnOf(fixed, 1, 1) == [] && ColumnOf(fixed, 2, 1) == [];
    assert fixed[|fixed| - 1] == [(2, [7])];
  }

  lemma TwinsPower(step: ByteStep)
    requires TWINS_KNOWN.Valid() && StepAt(TWINS_KNOWN, 1, step)
    ensures step.power == 2
  {
    TwinsColumn();
    EmptyColumn(TWINS_KNOWN, 1, step);
    assert TWINS_KNOWN.WithByteAt(1) == {1, 2};
  }

  /** Two layouts that are one and the same are called distinguishable. */
  lemma TwinsPass(d: Discriminator, distinguishable: bool)
    requires TWINS_KNOWN.Valid() && Generated(TWINS_KNOWN, d, distinguishable)
    ensures distinguishable
  {
    TwinsColumn();
    if !d.PerfectByte? {
      assert Imperfect(TWINS_KNOWN, 1);
      var step :| StepAt(TWINS_KNOWN, 1, step) && (step.power == 0 || step.power != |TWINS_KNOWN.bounds| - 1);
      TwinsPower(step);
      assert false;
    }
  }

  // ---- a layout of open size --------------------------------------------------------------

  /** Length-prefixed bytes; or a byte and the constant 7. The first may have a byte at position 1, but need not. */
  const OPEN := [[BytesItem("data", PrefixedBytes(Some(1), None))],
                 [UintItem("type", 1, PlainUint), UintItem("tag", 1, ConstantUint(Num(7), true))]]

  const OPEN_KNOWN := Known([Bounds(1, None), ExactSize(2)], [[], [(1, [7])]])

  const OPEN_DATA := RecordV(map["data" := BytesV([5])])

  lemma OpenIsDescribed()
    ensures Describes(OPEN_KNOWN, OPEN) && OPEN_KNOWN.Valid()
  {
    var none: FixedBytes := [];
    assert OPEN[0][1..] == [] && none + none == none;
    assert LayoutFixed(OPEN[0], Some(0), NOTHING) == Ok(none) && LayoutBounds(OPEN[0]) == Bounds(1, None);
    TagIsKnown();
    DescribedIsValid(OPEN_KNOWN, OPEN);
  }

  lemma TagIsKnown()
    ensures LayoutFixed(OPEN[1], Some(0), NOTHING) == Ok([(1, [7])]) && LayoutBounds(OPEN[1]) == ExactSize(2)
  {
    var tagged := OPEN[1];
    var none, pairs: FixedBytes := [], [(1, [7])];
    OneByteUint(7);
    assert tagged[1..] == [tagged[1]] && tagged[1..][1..] == [];
    assert pairs + none == pairs && none + pairs == pairs;
    assert ItemFixed(tagged[1], Some(1)) == Ok(pairs);
    assert LayoutFixed(tagged[1..], Some(1), ExactSize(1)) == Ok(pairs);
    assert LayoutBounds(tagged[1..]) == ExactSize(1);
  }

  lemma OpenSerializes()
    ensures Serializes(OPEN, 0, OPEN_DATA, [1, 5])
  {
    var all := OPEN[0];
    OneByteUint(1);
    assert all[1..] == [] && [1] + [5] == [1, 5] && [1, 5] + [] == [1, 5];
    assert FieldBytes(all[0], OPEN_DATA) == Ok([1, 5]);
  }

  lemma OpenColumns()
    ensures ColumnOf(OPEN_KNOWN.fixed, 2, 0) == [] && ColumnOf(OPEN_KNOWN.fixed, 2, 1) == [(7, 1)]
    ensures Width(OPEN_KNOWN.fixed) == 2
  {
    var fixed := OPEN_KNOWN.fixed;
    assert fixed[1][1..] == [] && ValuesAt(fixed[1], 0) == [] && ValuesAt(fixed[1], 1) == [7];
    assert forall p: nat :: ColumnOf(fixed, 0, p) == [] && ColumnOf(fixed, 1, p) == [];
    assert Tag([7], 1) == [(7, 1)];
    var front := fixed[..1];
    assert front[|front| - 1] == [] && Width(front[..0]) == 0 && Width(front) == 0;
  }

  /** At position 0 nobody has a known byte, at position 1 the second layout has the 7. */
  lemma OpenPowers(step: ByteStep)
    requires OPEN_KNOWN.Valid() && (StepAt(OPEN_KNOWN, 0, step) || StepAt(OPEN_KNOWN, 1, step))
    ensures StepAt(OPEN_KNOWN, 0, step) ==> step.power == 2
    ensures StepAt(OPEN_KNOWN, 1, step) ==> step.power == 1 && !HasKey(step.distinct, 5)
  {
    OpenColumns();
    if StepAt(OPEN_KNOWN, 0, step) {
      assert OPEN_KNOWN.WithByteAt(0) == {0, 1};
      EmptyColumn(OPEN_KNOWN, 0, step);
    } else {
      assert OPEN_KNOWN.WithByteAt(1) == {1} && OPEN_KNOWN.OutOfBounds(1) == {0};
      OnlyGroup(step.distinct);
    }
  }

  lemma OnlyGroup(groups: ByValue)
    requires Grouped(groups, [(7, 1)])
    ensures forall e <- groups :: e == (7, {1})
  {
    forall e | e in groups
      ensures e == (7, {1})
    {
      assert forall i: nat :: i in e.1 <==> (e.0, i) in [(7, 1)];
      var i: nat :| i in e.1;
      assert (e.0, i) == (7, 1);
      assert forall j: nat :: (e.0, j) in [(7, 1)] <==> j == 1;
      assert e.1 == {1};
    }
  }

  /** Position 1 is taken, and the serialization [1, 5] of the first layout is answered with no layout at all. */
  lemma OpenIsMissed(d: Discriminator, distinguishable: bool)
    requires OPEN_KNOWN.Valid() && Generated(OPEN_KNOWN, d, distinguishable)
    ensures d.PerfectByte? && d.step.bytePos == 1
    ensures ByteAnswer(d.step, [1, 5]) == {}
  {
    OpenColumns();
    if !d.PerfectByte? || d.step.bytePos > 1 {
      assert Imperfect(OPEN_KNOWN, 1);
      var step :| StepAt(OPEN_KNOWN, 1, step) && (step.power == 0 || step.power != |OPEN_KNOWN.bounds| - 1);
      OpenPowers(step);
      assert false;
    }
    OpenPowers(d.step);
  }
}
