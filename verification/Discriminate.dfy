// discriminate.ts: generateLayoutDiscriminator and layoutDiscriminator. Builds a decision procedure for a set of
// layouts and runs it on encoded data.
module Discriminate {
  import opened Common
  import opened Layouts
  import opened Serialize
  import opened LayoutMeta
  import opened OrderedMap
  import opened Sorting
  import opened Sweep
  import opened Knowledge
  import opened ByteSteps
  import opened Strategies

  /** The function returned at the end: all it needs, as data. */
  datatype Discriminator =
    | PerfectByte(step: ByteStep, layoutCount: nat)
    | PerfectSize(ascendingBounds: Steps, layoutCount: nat)
    | StrategyTree(ascendingBounds: Steps, layoutCount: nat, firstStrategy: Strategy,
                   strategies: map<Candidates, Strategy>, candidatesBySize: map<nat, seq<Candidates>>)

  // ---- the generator ----------------------------------------------------------------------

  /** The exit taken by the generator, and what is sure about the function it returns. */
  ghost predicate Fits(k: Known, d: Discriminator, distinguishable: bool)
    requires k.Valid()
  {
    d.layoutCount == |k.bounds| &&
    match d
    case PerfectByte(step, _) =>
      && StepAt(k, step.bytePos, step) && step.power == |k.bounds| - 1 && step.power != 0
    case PerfectSize(ascendingBounds, _) =>
      && (forall x: nat :: ValueAt(ascendingBounds, {}, x) == k.WithSize(x))
      && (forall x: nat :: |k.WithSize(x)| <= 1)
    case StrategyTree(ascendingBounds, _, first, strategies, candidatesBySize) =>
      && (forall x: nat :: ValueAt(ascendingBounds, {}, x) == k.WithSize(x))
      && Sound(k, k.All(), first) && StrategiesSound(k, strategies) && Listed(strategies, candidatesBySize)
      && (WellPlaced(k) ==> WellBuilt(k, first, strategies))
      && (distinguishable ==>
            first != Indistinguishable && forall c <- strategies :: strategies[c] != Indistinguishable)
  }

  /** The loop over the byte positions: bestBytes, or the first position with perfect power. */
  method RankBytes(k: Known, mustHaveByteAt: Steps, columns: seq<Column>)
    returns (perfect: Option<ByteStep>, bestBytes: seq<ByteStep>)
    requires k.Valid()
    requires forall x: nat :: ValueAt(mustHaveByteAt, k.All(), x) == k.WithByteAt(x)
    requires forall p | 0 <= p < |columns| :: columns[p] == ColumnOf(k.fixed, |k.fixed|, p)
    ensures forall step <- bestBytes :: step.power > 0 && StepAt(k, step.bytePos, step)
    ensures AllUsable(k, k.All(), bestBytes)
    ensures perfect.Some? ==>
              && perfect.value.bytePos < |columns| && StepAt(k, perfect.value.bytePos, perfect.value)
              && perfect.value.power == |k.bounds| - 1 && perfect.value.power != 0
              && forall p | 0 <= p < perfect.value.bytePos :: Imperfect(k, p)
    ensures perfect.None? ==>
              forall p | 0 <= p < |columns| :: Imperfect(k, p) && Ranked(k, bestBytes, p)
  {
    bestBytes := [];
    for p := 0 to |columns|
      invariant forall step <- bestBytes :: step.power > 0 && StepAt(k, step.bytePos, step)
      invariant AllUsable(k, k.All(), bestBytes)
      invariant forall q | 0 <= q < p :: Ranked(k, bestBytes, q)
      invariant forall q | 0 <= q < p :: Imperfect(k, q)
    {
      var step := BuildStep(k, mustHaveByteAt, columns[p], p);
      ghost var before := bestBytes;
      PowerIsNatural(k, p, step);
      if step.power == 0 {
        assert Ranked(k, bestBytes, p);
        continue;
      }
      if step.power == |k.bounds| - 1 {
        return Some(step), bestBytes;
      }
      StepIsUsable(k, p, step);
      bestBytes := bestBytes + [step];
      RankedMore(k, before, step, p);
    }
    return None, bestBytes;
  }

  lemma RankedMore(k: Known, before: seq<ByteStep>, step: ByteStep, p: nat)
    requires k.Valid() && StepAt(k, p, step) && forall q | 0 <= q < p :: Ranked(k, before, q)
    ensures forall q | 0 <= q < p + 1 :: Ranked(k, before + [step], q)
  {
    forall q | 0 <= q < p + 1
      ensures Ranked(k, before + [step], q)
    {
      if q < p {
        assert Ranked(k, before, q);
        var other :| StepAt(k, q, other) && (other.power == 0 || other in before);
        assert other.power == 0 || other in before + [step];
      } else {
        assert step in before + [step];
      }
    }
  }

  /** The table for the position is ranked, unless its power is zero. */
  ghost predicate Ranked(k: Known, bestBytes: seq<ByteStep>, p: nat)
    requires k.Valid()
  {
    exists step :: StepAt(k, p, step) && (step.power == 0 || step in bestBytes)
  }

  ghost predicate Imperfect(k: Known, p: nat)
    requires k.Valid()
  {
    exists step :: StepAt(k, p, step) && (step.power == 0 || step.power != |k.bounds| - 1)
  }

  lemma StepIsUsable(k: Known, p: nat, step: ByteStep)
    requires k.Valid() && StepAt(k, p, step) && step.power > 0
    ensures Usable(k, k.All(), step)
  {
    GroupIsFixedWith(k, p, step);
    forall v: byte | k.FixedWith(p, v) * k.All() != {}
      ensures HasKey(step.distinct, v)
    {
      assert k.FixedWith(p, v) != {};
    }
  }

  /** Whatever a byte eliminates, within the number of layouts that have one there, is the power of a ranked step. */
  lemma RankedEliminates(k: Known, bestBytes: seq<ByteStep>, p: nat, n: int)
    requires k.Valid() && WellPlaced(k) && Ranked(k, bestBytes, p)
    requires 0 < n <= |k.WithByteAt(p)| && ByteEliminates(k, k.All(), p, n)
    ensures exists step <- bestBytes :: step.bytePos == p && n <= step.power
  {
    var step :| StepAt(k, p, step) && (step.power == 0 || step in bestBytes);
    PowerEliminates(k, p, step);
  }

  /** No layout has a known byte behind the columns. */
  lemma {:induction false} NothingBeyond(pairs: FixedBytes, width: nat, p: nat)
    requires PairsFit(pairs, width) && p >= width
    ensures ValuesAt(pairs, p) == []
  {
    if pairs != [] {
      assert pairs[0] in pairs;
      NothingBeyond(pairs[1..], width, p);
    }
  }

  lemma NothingKnownBeyond(k: Known, p: nat, n: int)
    requires k.Valid() && AllPairsFit(k.fixed) && p >= Width(k.fixed)
    ensures !ByteEliminates(k, k.All(), p, n)
  {
    forall i | 0 <= i < |k.fixed|
      ensures ValuesAt(k.fixed[i], p) == []
    {
      assert k.fixed[i] in k.fixed;
      NothingBeyond(k.fixed[i], Width(k.fixed), p);
    }
    assert k.FixedAt(p) == {};
  }

  /** The ranked steps are all there is to tell layouts apart by their bytes. */
  lemma RankedCover(k: Known, bestBytes: seq<ByteStep>)
    requires k.Valid() && WellPlaced(k) && AllPairsFit(k.fixed)
    requires forall p | 0 <= p < Width(k.fixed) :: Ranked(k, bestBytes, p)
    ensures Covered(k, k.All(), bestBytes)
  {
    forall p: nat
      ensures Blind(k, k.All(), p) || exists step <- bestBytes :: step.bytePos == p
    {
      if p >= Width(k.fixed) {
        NothingKnownBeyond(k, p, 1);
      }
      if ByteEliminates(k, k.All(), p, 1) {
        KnownHaveByte(k, p);
        var i :| i in k.FixedAt(p);
        NonEmptyCount(k.WithByteAt(p));
        RankedEliminates(k, bestBytes, p, 1);
      } else {
        EliminatesOrBlind(k, k.All(), p);
      }
    }
  }

  /**
   * No look at the size or at a single byte eliminates more than the first strategy; a byte counts for no more than
   * the layouts that have one there.
   */
  ghost predicate FirstIsBest(k: Known, first: Strategy)
    requires k.Valid()
  {
    && (forall n | n > 0 && SizeEliminates(k, k.All(), n) :: Eliminates(k, k.All(), first, n))
    && forall p: nat, n | 0 < n <= |k.WithByteAt(p)| && ByteEliminates(k, k.All(), p, n) :: Eliminates(k, k.All(), first, n)
  }

  lemma GreedyIsBest(k: Known, bestBytes: seq<ByteStep>, sorted: seq<ByteStep>, first: Strategy)
    requires k.Valid() && WellPlaced(k) && AllPairsFit(k.fixed)
    requires forall p | 0 <= p < Width(k.fixed) :: Ranked(k, bestBytes, p)
    requires (forall step :: step in sorted <==> step in bestBytes) && Greedy(k, k.All(), sorted, first)
    ensures FirstIsBest(k, first)
  {
    forall n | n > 0 && SizeEliminates(k, k.All(), n)
      ensures Eliminates(k, k.All(), first, n)
    {
      assert Offered(k, k.All(), sorted, n);
    }
    forall p: nat, n | 0 < n <= |k.WithByteAt(p)| && ByteEliminates(k, k.All(), p, n)
      ensures Eliminates(k, k.All(), first, n)
    {
      if p >= Width(k.fixed) {
        NothingKnownBeyond(k, p, n);
      }
      RankedEliminates(k, bestBytes, p, n);
      var step :| step in bestBytes && step.bytePos == p && n <= step.power;
      assert step in sorted && Offered(k, k.All(), sorted, n);
    }
  }

  lemma SortedIsComplete(k: Known, sorted: seq<Interval>)
    requires forall p :: p in sorted <==> 0 <= p.1 < |k.bounds| && p.0 == k.bounds[p.1]
    ensures forall x: nat :: Containing(sorted, x) == k.WithSize(x)
    ensures forall b <- k.bounds :: exists p <- sorted :: p.0 == b
  {
    forall x: nat
      ensures Containing(sorted, x) == k.WithSize(x)
    {
      forall i | i in k.WithSize(x)
        ensures i in Containing(sorted, x)
      {
        assert (k.bounds[i], i) in sorted;
      }
    }
    forall b | b in k.bounds
      ensures exists p <- sorted :: p.0 == b
    {
      var i :| 0 <= i < |k.bounds| && k.bounds[i] == b;
      assert (b, i) in sorted;
    }
  }

  /** The tables over sizes. */
  method BuildSizeTables(k: Known) returns (mustHaveByteAt: Steps, ascendingBounds: Steps)
    requires k.Valid()
    ensures forall x: nat :: ValueAt(mustHaveByteAt, k.All(), x) == k.WithByteAt(x)
    ensures SizesKnown(k, ascendingBounds)
  {
    var sorted := SortBounds(k);
    mustHaveByteAt := BuildMustHaveByteAt(k, sorted);
    ascendingBounds := BuildAscendingBounds(sorted);
    SortedIsComplete(k, sorted);
  }

  /** No size fits more layouts than the largest step. */
  lemma {:induction false} SizesWithinLargest(steps: Steps, start: Candidates, x: nat, largest: nat)
    requires |start| <= largest && forall e <- steps :: |e.1| <= largest
    ensures |ValueAt(steps, start, x)| <= largest
  {
    if |steps| > 0 && x >= steps[0].0 {
      assert steps[0] in steps;
      SizesWithinLargest(steps[1..], steps[0].1, x, largest);
    }
  }

  /** generateLayoutDiscriminator. */
  method GenerateLayoutDiscriminator(layouts: seq<Layout>) returns (r: Result<(bool, Discriminator)>)
    ensures r.Ok? ==> |layouts| > 0 && Describes(KnownOf(layouts), layouts) && KnownOf(layouts).Valid()
                      && Generated(KnownOf(layouts), r.value.1, r.value.0)
    ensures r.Ok? <==> |layouts| > 0 && (forall l <- layouts :: ConstantsFit(l)) && AllPairsFit(KnownOf(layouts).fixed)
    ensures (forall l <- layouts :: Anchored(l, NOTHING)) ==>
              (r.Ok? <==> |layouts| > 0 && forall l <- layouts :: ConstantsFit(l))
  {
    if |layouts| == 0 {
      return Err(Invalid("Cannot discriminate empty set of layouts"));
    }
    var meta := CollectMeta(layouts);
    if meta.Err? {
      return Err(meta.error);
    }
    DescribedIsKnown(meta.value, layouts);
    if forall l <- layouts :: Anchored(l, NOTHING) {
      AnchoredPairsFit(meta.value, layouts);
    }
    r := DiscriminatorFor(meta.value);
  }

  predicate AllPairsFit(fixed: seq<FixedBytes>) {
    forall pairs <- fixed :: PairsFit(pairs, Width(fixed))
  }

  /**
   * The generated function fits, a perfect byte exit was taken at the first position that has one, and the size if
   * there is none but every size fits one layout only. The layouts are called indistinguishable only in a strategy
   * tree, and where offsets are true only if some are alike.
   */
  ghost predicate Generated(k: Known, d: Discriminator, distinguishable: bool)
    requires k.Valid()
  {
    && Fits(k, d, distinguishable)
    && (d.StrategyTree? ==> exists x: nat :: |k.WithSize(x)| > 1)
    && (!distinguishable ==> d.StrategyTree? && (WellPlaced(k) ==> SomeAlike(k)))
    && (d.StrategyTree? && WellPlaced(k) ==> FirstIsBest(k, d.firstStrategy))
    && forall p | 0 <= p < if d.PerfectByte? then d.step.bytePos else Width(k.fixed) :: Imperfect(k, p)
  }

  /** What follows once the metadata of the layouts is there. */
  method DiscriminatorFor(k: Known) returns (r: Result<(bool, Discriminator)>)
    requires k.Valid() && |k.bounds| > 0
    ensures r.Ok? ==> Generated(k, r.value.1, r.value.0)
    ensures r.Ok? <==> AllPairsFit(k.fixed)
  {
    var layoutCount := |k.bounds|;
    var mustHaveByteAt, ascendingBounds := BuildSizeTables(k);
    var largest := LargestStep(ascendingBounds);
    var columns := BuildColumns(k);
    if columns.Err? {
      return Err(columns.error);
    }
    var perfect, bestBytes := RankBytes(k, mustHaveByteAt, columns.value);
    if perfect.Some? {
      return Ok((true, PerfectByte(perfect.value, layoutCount)));
    }
    var sizePower := layoutCount - largest;
    if sizePower == layoutCount - 1 {
      PerfectSizeFits(k, ascendingBounds);
      return Ok((true, PerfectSize(ascendingBounds, layoutCount)));
    }
    ghost var size := LargestIsAttained(k, ascendingBounds, largest);
    var tree, distinguishable := BuildTree(k, ascendingBounds, bestBytes);
    return Ok((distinguishable, tree));
  }

  /** What follows if there is no perfect discriminator. */
  method BuildTree(k: Known, ascendingBounds: Steps, bestBytes: seq<ByteStep>)
    returns (tree: Discriminator, distinguishable: bool)
    requires k.Valid() && SizesKnown(k, ascendingBounds) && |k.bounds| > 1 && AllPairsFit(k.fixed)
    requires AllUsable(k, k.All(), bestBytes) && forall p | 0 <= p < Width(k.fixed) :: Ranked(k, bestBytes, p)
    ensures tree.StrategyTree? && Fits(k, tree, distinguishable)
    ensures WellPlaced(k) ==> (!distinguishable ==> SomeAlike(k)) && FirstIsBest(k, tree.firstStrategy)
  {
    var sorted := SortByKey(bestBytes, DESCENDING_POWER);
    LargestFirst(bestBytes);
    if WellPlaced(k) {
      RankedCover(k, bestBytes);
      CoveredSorted(k, k.All(), bestBytes, sorted);
    }
    var builder := new StrategyBuilder(k, ascendingBounds);
    ghost var depth := builder.RecursivelyBuildStrategy(k.All(), sorted);
    if WellPlaced(k) {
      GreedyIsBest(k, bestBytes, sorted, builder.firstStrategy.value);
    }
    return StrategyTree(ascendingBounds, |k.bounds|, builder.firstStrategy.value, builder.strategies, builder.candidatesBySize),
           builder.distinguishable;
  }

  lemma PerfectSizeFits(k: Known, ascendingBounds: Steps)
    requires k.Valid() && SizesKnown(k, ascendingBounds)
    requires forall e <- ascendingBounds :: |e.1| <= 1
    ensures forall x: nat :: |k.WithSize(x)| <= 1
  {
    forall x: nat
      ensures |k.WithSize(x)| <= 1
    {
      SizesWithinLargest(ascendingBounds, {}, x, 1);
    }
  }

  /** Some size fits some layout, and one fits as many as the largest step says. */
  lemma LargestIsAttained(k: Known, ascendingBounds: Steps, largest: nat) returns (x: nat)
    requires k.Valid() && SizesKnown(k, ascendingBounds) && |k.bounds| > 0
    requires forall e <- ascendingBounds :: |e.1| <= largest
    requires largest > 0 ==> exists e <- ascendingBounds :: |e.1| == largest
    ensures largest > 0 && |k.WithSize(x)| == largest <= |k.bounds|
  {
    var size := k.bounds[0].lower;
    assert k.bounds[0] in k.bounds;
    assert 0 in k.WithSize(size);
    NonEmptyCount(k.WithSize(size));
    SizesWithinLargest(ascendingBounds, {}, size, largest);
    var e :| e in ascendingBounds && |e.1| == largest;
    var j :| 0 <= j < |ascendingBounds| && ascendingBounds[j] == e;
    GetIsValueAt(ascendingBounds, {}, j);
    AscendingDistinct(ascendingBounds);
    GetAt(ascendingBounds, j);
    x := e.0;
    SmallerCount(k.WithSize(x), k.All());
  }

  /** With offsets into the data itself, no constant lies behind the columns. */
  lemma AnchoredPairsFit(k: Known, layouts: seq<Layout>)
    requires Describes(k, layouts) && forall l <- layouts :: Anchored(l, NOTHING)
    ensures AllPairsFit(k.fixed)
  {
    forall pairs | pairs in k.fixed
      ensures PairsFit(pairs, Width(k.fixed))
    {
      var i :| 0 <= i < |k.fixed| && k.fixed[i] == pairs;
      assert layouts[i] in layouts;
      LastPairEndsLast(layouts[i]);
      if pairs != [] {
        WidthCoversLast(k.fixed, i);
      }
    }
  }

  lemma {:induction false} WidthCoversLast(fixed: seq<FixedBytes>, i: nat)
    requires i < |fixed| && |fixed[i]| > 0
    ensures var last := fixed[i][|fixed[i]| - 1]; last.0 + |last.1| <= Width(fixed)
  {
    var front := fixed[..|fixed| - 1];
    if i < |front| {
      assert front[i] == fixed[i];
      WidthCoversLast(front, i);
    }
  }

  // ---- running it -------------------------------------------------------------------------

  /** What running the function on some data comes to. */
  datatype Outcome =
    | Found(indices: seq<nat>)
    | Throws       // findSmallestSuperSetStrategy finds nothing
    | Loops        // the same strategy is applied to the same candidates for ever

  /** The candidates that a strategy leaves. */
  ghost function Remaining(k: Known, s: Strategy, candidates: Candidates, encoded: bytes): Candidates {
    match s
    case ByByte(p, outOfBounds, distinct) =>
      if |encoded| <= p then candidates * outOfBounds
      else set i | i in candidates && i !in outOfBounds && forall e <- distinct :: e.0 != encoded[p] ==> i !in e.1
    case BySize => candidates * k.WithSize(|encoded|)
    case Indistinguishable => candidates
  }

  /** One byte strategy applied to the remaining candidates. */
  method ApplyByteStrategy(ghost k: Known, s: Strategy, candidates: Candidates, encoded: bytes) returns (r: Candidates)
    requires s.ByByte?
    ensures r == Remaining(k, s, candidates, encoded)
  {
    if |encoded| <= s.bytePos {
      return candidates * s.outOfBounds;
    }
    r := candidates;
    for j := 0 to |s.distinct|
      invariant forall i: nat :: i in r <==>
                  i in candidates && forall e <- s.distinct[..j] :: e.0 != encoded[s.bytePos] ==> i !in e.1
    {
      assert s.distinct[..j + 1] == s.distinct[..j] + [s.distinct[j]];
      if s.distinct[j].0 != encoded[s.bytePos] {
        r := Xor(r, r * s.distinct[j].1);
      }
    }
    assert s.distinct[..|s.distinct|] == s.distinct;
    r := Xor(r, r * s.outOfBounds);
  }

  method Step(d: Discriminator, strategy: Strategy, candidates: Candidates, encoded: bytes, ghost k: Known)
    returns (r: Candidates)
    requires d.StrategyTree? && strategy != Indistinguishable
    requires forall x: nat :: ValueAt(d.ascendingBounds, {}, x) == k.WithSize(x)
    ensures r == Remaining(k, strategy, candidates, encoded)
  {
    if strategy.BySize? {
      var fitting := Walk(d.ascendingBounds, {}, |encoded|);
      return candidates * fitting;
    }
    r := ApplyByteStrategy(k, strategy, candidates, encoded);
  }

  function FirstSuperset(sets: seq<Candidates>, candidates: Candidates): (r: Option<Candidates>)
    ensures r.Some? ==> r.value in sets && candidates <= r.value
    ensures r.None? ==> forall c <- sets :: !(candidates <= c)
  {
    if |sets| == 0 then None
    else if candidates * sets[0] == candidates then Some(sets[0])
    else
      SubsetIsIntersection(candidates, sets[0]);
      FirstSuperset(sets[1..], candidates)
  }

  lemma SubsetIsIntersection(a: Candidates, b: Candidates)
    ensures a * b == a <==> a <= b
  {
    if a <= b {
      assert a * b == a;
    }
  }

  /** The first of the smallest filed supersets with at least `size` and less than layoutCount - 2 candidates. */
  function SmallestSuperset(d: Discriminator, candidates: Candidates, size: nat): (r: Option<Candidates>)
    requires d.StrategyTree?
    ensures r.Some? ==>
              && candidates <= r.value
              && exists s: nat :: size <= s < d.layoutCount - 2 && ListedUnder(d.candidatesBySize, s, r.value)
    ensures r.None? ==>
              forall s: nat, c | size <= s < d.layoutCount - 2 && ListedUnder(d.candidatesBySize, s, c) :: !(candidates <= c)
    decreases d.layoutCount - size
  {
    if size >= d.layoutCount - 2 then None
    else
      var here := if size in d.candidatesBySize then FirstSuperset(d.candidatesBySize[size], candidates) else None;
      if here.Some? then
        assert ListedUnder(d.candidatesBySize, size, here.value);
        here
      else SmallestSuperset(d, candidates, size + 1)
  }

  method FindSmallestSuperSetStrategy(d: Discriminator, candidates: Candidates) returns (r: Option<Strategy>)
    requires d.StrategyTree? && Listed(d.strategies, d.candidatesBySize)
    ensures r.Some? <==> SmallestSuperset(d, candidates, |candidates| + 1).Some?
    ensures r.Some? ==> SmallestSuperset(d, candidates, |candidates| + 1).value in d.strategies
    ensures r.Some? ==> r.value == d.strategies[SmallestSuperset(d, candidates, |candidates| + 1).value]
  {
    var size := |candidates| + 1;
    while size < d.layoutCount - 2
      invariant SmallestSuperset(d, candidates, size) == SmallestSuperset(d, candidates, |candidates| + 1)
    {
      if size in d.candidatesBySize {
        var larger := d.candidatesBySize[size];
        assert larger[0..] == larger;
        for j := 0 to |larger|
          invariant FirstSuperset(larger[j..], candidates) == FirstSuperset(larger, candidates)
        {
          assert larger[j..][1..] == larger[j + 1..];
          if candidates * larger[j] == candidates {
            assert ListedUnder(d.candidatesBySize, size, larger[j]);
            return Some(d.strategies[larger[j]]);
          }
        }
      }
      size := size + 1;
    }
    return None;
  }

  /** `strategies.get(candidates) ?? findSmallestSuperSetStrategy(candidates)` */
  ghost function StrategyFor(d: Discriminator, candidates: Candidates): Option<Strategy>
    requires d.StrategyTree? && Listed(d.strategies, d.candidatesBySize)
  {
    if candidates in d.strategies then Some(d.strategies[candidates])
    else
      match SmallestSuperset(d, candidates, |candidates| + 1)
      case None => None
      case Some(c) =>
        ghost var s: nat :| ListedUnder(d.candidatesBySize, s, c);
        Some(d.strategies[c])
  }

  method Lookup(d: Discriminator, candidates: Candidates) returns (r: Option<Strategy>)
    requires d.StrategyTree? && Listed(d.strategies, d.candidatesBySize)
    ensures r == StrategyFor(d, candidates)
  {
    if candidates in d.strategies {
      return Some(d.strategies[candidates]);
    }
    r := FindSmallestSuperSetStrategy(d, candidates);
  }

  /** There is a strategy just if the candidates, or more of them but fewer than layoutCount - 2, have one. */
  lemma StrategyForIsFiled(d: Discriminator, candidates: Candidates)
    requires d.StrategyTree? && Listed(d.strategies, d.candidatesBySize)
    ensures StrategyFor(d, candidates).Some? <==>
              candidates in d.strategies || exists c <- d.strategies :: candidates < c && |c| < d.layoutCount - 2
    ensures StrategyFor(d, candidates).Some? ==>
              exists c <- d.strategies :: candidates <= c && StrategyFor(d, candidates).value == d.strategies[c]
  {
    if candidates !in d.strategies {
      var found := SmallestSuperset(d, candidates, |candidates| + 1);
      if found.Some? {
        var s: nat :| |candidates| + 1 <= s < d.layoutCount - 2 && ListedUnder(d.candidatesBySize, s, found.value);
        FewerIsSmaller(candidates, found.value);
      } else {
        forall c | c in d.strategies && candidates < c
          ensures |c| >= d.layoutCount - 2
        {
          SmallerCount(candidates, c);
          assert ListedUnder(d.candidatesBySize, |c|, c);
        }
      }
    }
  }

  /** The loop of the returned function for a strategy tree. */
  ghost function Walked(d: Discriminator, k: Known, candidates: Candidates, s: Strategy, lookedUp: bool, encoded: bytes): Outcome
    requires d.StrategyTree? && Listed(d.strategies, d.candidatesBySize)
    decreases |candidates|, if lookedUp then 0 else 1
  {
    if s == Indistinguishable then Found(ToArray(candidates, d.layoutCount))
    else
      var left := Remaining(k, s, candidates, encoded);
      SmallerCount(left, candidates);
      if |left| <= 1 then Found(ToArray(left, d.layoutCount))
      else if lookedUp && left == candidates then Loops
      else
        match StrategyFor(d, left)
        case None => Throws
        case Some(next) => Walked(d, k, left, next, true, encoded)
  }

  /** The function returned by generateLayoutDiscriminator, in each of its three forms. */
  ghost function Answer(d: Discriminator, k: Known, encoded: bytes): Outcome
    requires d.StrategyTree? ==> Listed(d.strategies, d.candidatesBySize)
  {
    match d
    case PerfectByte(step, _) => Found(ToArray(ByteAnswer(step, encoded), d.layoutCount))
    case PerfectSize(_, _) => Found(ToArray(k.WithSize(|encoded|), d.layoutCount))
    case StrategyTree(_, _, first, _, _) => Walked(d, k, k.All(), first, false, encoded)
  }

  method Descend(d: Discriminator, encoded: bytes, ghost k: Known) returns (r: Outcome)
    requires d.StrategyTree? && Listed(d.strategies, d.candidatesBySize) && d.layoutCount == |k.bounds|
    requires forall x: nat :: ValueAt(d.ascendingBounds, {}, x) == k.WithSize(x)
    ensures r == Answer(d, k, encoded)
  {
    var candidates, strategy, lookedUp := FirstLayouts(d.layoutCount), d.firstStrategy, false;
    while strategy != Indistinguishable
      invariant Walked(d, k, candidates, strategy, lookedUp, encoded) == Answer(d, k, encoded)
      decreases |candidates|, if lookedUp then 0 else 1
    {
      var previous := candidates;
      candidates := Step(d, strategy, candidates, encoded, k);
      if |candidates| <= 1 {
        return Found(ToArray(candidates, d.layoutCount));
      }
      if lookedUp && candidates == previous {
        return Loops;
      }
      SmallerCount(candidates, previous);
      var found := Lookup(d, candidates);
      if found.None? {
        return Throws;
      }
      strategy, lookedUp := found.value, true;
    }
    return Found(ToArray(candidates, d.layoutCount));
  }

  method Run(d: Discriminator, encoded: bytes, ghost k: Known, ghost distinguishable: bool) returns (r: Outcome)
    requires k.Valid() && Fits(k, d, distinguishable)
    ensures r == Answer(d, k, encoded)
  {
    match d {
      case PerfectByte(step, _) =>
        return Found(ToArray(ByteAnswer(step, encoded), d.layoutCount));
      case PerfectSize(ascendingBounds, _) =>
        var fitting := Walk(ascendingBounds, {}, |encoded|);
        return Found(ToArray(fitting, d.layoutCount));
      case StrategyTree(_, _, _, _, _) =>
        r := Descend(d, encoded, k);
    }
  }

  // ---- what is found ----------------------------------------------------------------------

  /** The byte positions that the function looks at. */
  ghost function Positions(d: Discriminator): set<nat> {
    match d
    case PerfectByte(step, _) => {step.bytePos}
    case PerfectSize(_, _) => {}
    case StrategyTree(_, _, first, strategies, _) =>
      (if first.ByByte? then {first.bytePos} else {})
      + set c | c in strategies && strategies[c].ByByte? :: strategies[c].bytePos
  }

  /**
   * Data that no strategy can take for data of another layout than `i`: at no position that is looked at
   * does it have a byte that the layout may but need not have, or another byte than the known one.
   */
  ghost predicate Reliable(k: Known, positions: set<nat>, i: nat, encoded: bytes)
    requires k.Valid()
  {
    && i < |k.bounds| && k.bounds[i].Contains(|encoded|)
    && forall p <- positions :: Conforms(k, p, i, encoded) && (p < k.bounds[i].lower || |encoded| <= p)
  }

  /** A strategy made for these candidates and perhaps more, looking nowhere but at `positions`. */
  ghost predicate Applicable(k: Known, positions: set<nat>, candidates: Candidates, s: Strategy)
    requires k.Valid()
  {
    && (s.ByByte? ==> s.bytePos in positions)
    && exists made: Candidates :: candidates <= made && Sound(k, made, s)
  }

  /** A sound strategy never drops a layout that the data conforms to. */
  lemma StepKeeps(k: Known, positions: set<nat>, candidates: Candidates, s: Strategy, i: nat, encoded: bytes)
    requires k.Valid() && Applicable(k, positions, candidates, s) && i in candidates
    requires Reliable(k, positions, i, encoded)
    ensures i in Remaining(k, s, candidates, encoded)
  {
    if s.ByByte? {
      var made: Candidates :| candidates <= made && Sound(k, made, s);
      assert Conforms(k, s.bytePos, i, encoded);
      forall e | e in s.distinct && i in e.1
        ensures |encoded| > s.bytePos && e.0 == encoded[s.bytePos]
      {
        assert i in k.FixedWith(s.bytePos, e.0);
      }
    }
  }

  lemma NextIsApplicable(d: Discriminator, k: Known, candidates: Candidates)
    requires d.StrategyTree? && k.Valid() && Listed(d.strategies, d.candidatesBySize) && StrategiesSound(k, d.strategies)
    requires StrategyFor(d, candidates).Some?
    ensures Applicable(k, Positions(d), candidates, StrategyFor(d, candidates).value)
    ensures (forall c <- d.strategies :: d.strategies[c] != Indistinguishable) ==>
              StrategyFor(d, candidates).value != Indistinguishable
  {
    StrategyForIsFiled(d, candidates);
    var c :| c in d.strategies && candidates <= c && StrategyFor(d, candidates).value == d.strategies[c];
    assert Sound(k, c, d.strategies[c]);
  }

  /** What is found has every layout that the data is reliable for, and is not ambiguous if the layouts are distinguishable. */
  lemma {:induction false} WalkFinds(d: Discriminator, k: Known, distinguishable: bool, candidates: Candidates, s: Strategy,
                                     lookedUp: bool, encoded: bytes)
    requires d.StrategyTree? && k.Valid() && Fits(k, d, distinguishable) && candidates <= k.All()
    requires Applicable(k, Positions(d), candidates, s) && (distinguishable ==> s != Indistinguishable)
    ensures var r := Walked(d, k, candidates, s, lookedUp, encoded);
            r.Found? ==>
              && (forall i | i in candidates && Reliable(k, Positions(d), i, encoded) :: i in r.indices)
              && (distinguishable ==> |r.indices| <= 1)
    decreases |candidates|, if lookedUp then 0 else 1
  {
    if s != Indistinguishable {
      var left := Remaining(k, s, candidates, encoded);
      SmallerCount(left, candidates);
      forall i | i in candidates && Reliable(k, Positions(d), i, encoded)
        ensures i in left
      {
        StepKeeps(k, Positions(d), candidates, s, i, encoded);
      }
      if |left| <= 1 {
        ToArrayLength(left, d.layoutCount);
      } else if !(lookedUp && left == candidates) && StrategyFor(d, left).Some? {
        NextIsApplicable(d, k, left);
        WalkFinds(d, k, distinguishable, left, StrategyFor(d, left).value, true, encoded);
      }
    }
  }

  lemma TreeFinds(d: Discriminator, k: Known, distinguishable: bool, encoded: bytes)
    requires d.StrategyTree? && k.Valid() && Fits(k, d, distinguishable)
    ensures var r := Answer(d, k, encoded);
            r.Found? ==>
              && (forall i: nat | Reliable(k, Positions(d), i, encoded) :: i in r.indices)
              && (distinguishable ==> |r.indices| <= 1)
  {
    assert Sound(k, k.All(), d.firstStrategy);
    WalkFinds(d, k, distinguishable, k.All(), d.firstStrategy, false, encoded);
    assert forall i: nat | Reliable(k, Positions(d), i, encoded) :: i in k.All();
  }

  // ---- when something is found ------------------------------------------------------------

  ghost predicate UsesSize(d: Discriminator) {
    d.StrategyTree? && (d.firstStrategy.BySize? || exists c <- d.strategies :: d.strategies[c].BySize?)
  }

  /**
   * Data of layout `i` that the tree has an answer for whatever it asks: the layout is known to have the byte
   * that the data has at every position that is looked at - or the data is too short, and so is no more than one layout -
   * and the size, if it is looked at, is its smallest.
   */
  ghost predicate Recognizable(k: Known, d: Discriminator, i: nat, encoded: bytes)
    requires k.Valid()
  {
    && i < |k.bounds| && k.bounds[i].Contains(|encoded|) && (UsesSize(d) ==> |encoded| == k.bounds[i].lower)
    && forall p <- Positions(d) ::
         && Conforms(k, p, i, encoded)
         && (ValuesAt(k.fixed[i], p) != [] || (|encoded| <= p && |k.OutOfBounds(p)| <= 1))
  }

  lemma RecognizableIsReliable(k: Known, d: Discriminator, i: nat, encoded: bytes)
    requires k.Valid() && WellPlaced(k) && Recognizable(k, d, i, encoded)
    ensures Reliable(k, Positions(d), i, encoded)
  {
    forall p | p in Positions(d)
      ensures p < k.bounds[i].lower || |encoded| <= p
    {
      assert ValuesAt(k.fixed[i], p) != [] ==> p < k.bounds[i].lower;
    }
  }

  /** On such data a step leads to a branch of the strategy. */
  lemma StepIsSettled(d: Discriminator, k: Known, candidates: Candidates, s: Strategy, i: nat, encoded: bytes)
    requires d.StrategyTree? && k.Valid() && WellPlaced(k) && candidates <= k.All() && i in candidates
    requires MadeFor(k, d.firstStrategy, d.strategies, candidates, s) && s != Indistinguishable
    requires Sound(k, candidates, s) && Complete(k, d.strategies, candidates, s) && Recognizable(k, d, i, encoded)
    ensures Settled(d.strategies, candidates, Remaining(k, s, candidates, encoded))
  {
    if s.BySize? {
      assert UsesSize(d);
      assert Remaining(k, s, candidates, encoded) == Overlap(k, candidates, i);
    } else {
      var p := s.bytePos;
      assert p in Positions(d) && Conforms(k, p, i, encoded);
      ShortIsUnknown(k, p, i, encoded);
      if |encoded| <= p {
        SmallerCount(Remaining(k, s, candidates, encoded), k.OutOfBounds(p));
      } else {
        LongStepIsSettled(d, k, candidates, s, i, encoded);
      }
    }
  }

  lemma ShortIsUnknown(k: Known, p: nat, i: nat, encoded: bytes)
    requires k.Valid() && WellPlaced(k) && i < |k.bounds| && k.bounds[i].Contains(|encoded|)
    ensures |encoded| <= p ==> ValuesAt(k.fixed[i], p) == []
  {
  }

  lemma LongStepIsSettled(d: Discriminator, k: Known, candidates: Candidates, s: Strategy, i: nat, encoded: bytes)
    requires d.StrategyTree? && k.Valid() && WellPlaced(k) && candidates <= k.All() && i in candidates
    requires s.ByByte? && |encoded| > s.bytePos && ValuesAt(k.fixed[i], s.bytePos) != []
    requires Sound(k, candidates, s) && Complete(k, d.strategies, candidates, s) && Conforms(k, s.bytePos, i, encoded)
    ensures Settled(d.strategies, candidates, Remaining(k, s, candidates, encoded))
  {
    var p, v := s.bytePos, encoded[s.bytePos];
    var known := ValuesAt(k.fixed[i], p)[0];
    assert known in ValuesAt(k.fixed[i], p) && known == v;
    assert i in k.FixedWith(p, v) * candidates;
    var a :| 0 <= a < |s.distinct| && s.distinct[a].0 == v;
    assert s.distinct[a] in s.distinct;
    RemainingIsBranch(k, candidates, s, encoded);
  }

  /** The loop over the groups leaves the group of the value and those that may have any value. */
  lemma RemainingIsBranch(k: Known, candidates: Candidates, s: Strategy, encoded: bytes)
    requires k.Valid() && WellPlaced(k) && candidates <= k.All() && Sound(k, candidates, s)
    requires s.ByByte? && |encoded| > s.bytePos
    ensures Remaining(k, s, candidates, encoded) == WithValue(k, candidates, s.bytePos, encoded[s.bytePos])
  {
    var p, v := s.bytePos, encoded[s.bytePos];
    KnownHaveByte(k, p);
    assert k.AnyAt(p) == k.WithByteAt(p) - k.FixedAt(p);
    forall j | j in candidates
      ensures j in Remaining(k, s, candidates, encoded) <==> j in WithValue(k, candidates, p, v)
    {
      if j in k.FixedAt(p) {
        KnownRemains(k, candidates, s, encoded, j);
      } else {
        assert forall e <- s.distinct :: j !in e.1 by {
          forall e | e in s.distinct
            ensures j !in e.1
          {
            assert e.1 <= k.FixedWith(p, e.0);
          }
        }
      }
    }
  }

  lemma KnownRemains(k: Known, candidates: Candidates, s: Strategy, encoded: bytes, j: nat)
    requires k.Valid() && WellPlaced(k) && candidates <= k.All() && Sound(k, candidates, s)
    requires s.ByByte? && |encoded| > s.bytePos && j in candidates && j in k.FixedAt(s.bytePos)
    ensures j in Remaining(k, s, candidates, encoded) <==> j in k.FixedWith(s.bytePos, encoded[s.bytePos])
    ensures j !in k.AnyAt(s.bytePos)
  {
    var p := s.bytePos;
    KnownHaveByte(k, p);
    var w := OnlyKnown(k, p, j);
    assert j in k.FixedWith(p, w) * candidates;
    var a :| 0 <= a < |s.distinct| && s.distinct[a].0 == w;
    assert s.distinct[a] in s.distinct && j in s.distinct[a].1;
    assert forall e <- s.distinct :: j in e.1 ==> e.0 == w;
  }

  lemma OnlyKnown(k: Known, p: nat, j: nat) returns (w: byte)
    requires k.Valid() && WellPlaced(k) && j in k.FixedAt(p)
    ensures forall u: byte :: j in k.FixedWith(p, u) <==> u == w
  {
    assert |ValuesAt(k.fixed[j], p)| == 1;
    w := ValuesAt(k.fixed[j], p)[0];
  }

  /** A walk that starts with the strategy made for its candidates comes to an answer on recognizable data. */
  lemma {:induction false} WalkEnds(d: Discriminator, k: Known, candidates: Candidates, s: Strategy, lookedUp: bool,
                                    i: nat, encoded: bytes)
    requires d.StrategyTree? && k.Valid() && WellPlaced(k) && Fits(k, d, false)
    requires candidates <= k.All() && i in candidates && MadeFor(k, d.firstStrategy, d.strategies, candidates, s)
    requires Recognizable(k, d, i, encoded)
    ensures Walked(d, k, candidates, s, lookedUp, encoded).Found?
    decreases |candidates|
  {
    if s != Indistinguishable {
      var left := Remaining(k, s, candidates, encoded);
      MadeIsComplete(d, k, candidates, s);
      StepIsSettled(d, k, candidates, s, i, encoded);
      if |left| > 1 {
        RecognizableIsReliable(k, d, i, encoded);
        assert Applicable(k, Positions(d), candidates, s);
        StepKeeps(k, Positions(d), candidates, s, i, encoded);
        SmallerCount(left, candidates);
        WalkEnds(d, k, left, d.strategies[left], true, i, encoded);
      }
    }
  }

  lemma MadeIsComplete(d: Discriminator, k: Known, candidates: Candidates, s: Strategy)
    requires d.StrategyTree? && k.Valid() && WellPlaced(k) && Fits(k, d, false)
    requires MadeFor(k, d.firstStrategy, d.strategies, candidates, s)
    ensures Sound(k, candidates, s) && Complete(k, d.strategies, candidates, s)
  {
    if candidates in d.strategies && s == d.strategies[candidates] {
      assert WellFiled(k, d.firstStrategy, d.strategies, candidates);
    }
  }

  /** So does the tree. */
  lemma TreeAnswers(d: Discriminator, k: Known, i: nat, encoded: bytes)
    requires d.StrategyTree? && k.Valid() && WellPlaced(k) && Fits(k, d, false) && Recognizable(k, d, i, encoded)
    ensures Answer(d, k, encoded).Found?
  {
    WalkEnds(d, k, k.All(), d.firstStrategy, false, i, encoded);
  }

  lemma {:induction false} ToArrayLength(candidates: Candidates, n: nat)
    requires forall i <- candidates :: i < n
    ensures |ToArray(candidates, n)| == |candidates|
  {
    if n == 0 {
      assert candidates == {};
    } else {
      ToArrayLength(candidates - {n - 1}, n - 1);
      ToArraySame(candidates - {n - 1}, candidates, n - 1);
      if n - 1 !in candidates {
        assert candidates - {n - 1} == candidates;
      }
    }
  }

  lemma {:induction false} ToArraySame(a: Candidates, b: Candidates, n: nat)
    requires forall i: nat | i < n :: i in a <==> i in b
    ensures ToArray(a, n) == ToArray(b, n)
  {
    if n > 0 {
      ToArraySame(a, b, n - 1);
    }
  }

  // ---- layoutDiscriminator ----------------------------------------------------------------

  /** `encoded` is a serialization of layout `i` of the set. */
  ghost predicate Serializes(layouts: seq<Layout>, i: nat, data: Value, encoded: bytes) {
    i < |layouts| && LayoutBytes(layouts[i], data) == Ok(encoded)
  }

  /**
   * The function can rely on what it knows about data of this size of the layout: offsets are true if it looks
   * at bytes at all, and it looks at none that the layout may but need not have.
   */
  ghost predicate Tractable(d: Discriminator, layout: Layout, size: nat) {
    && (Positions(d) != {} ==> Anchored(layout, NOTHING))
    && forall p <- Positions(d) :: p < LayoutBounds(layout).lower || size <= p
  }

  /** Serializations of a layout of one size are no problem. */
  lemma ExactIsTractable(d: Discriminator, layout: Layout, data: Value)
    requires LayoutBytes(layout, data).Ok? && Anchored(layout, NOTHING) && LayoutBounds(layout).Exact()
    ensures Tractable(d, layout, |LayoutBytes(layout, data).value|)
  {
    BoundsHold(layout, data);
  }

  /** The layouts have no size in common, or at some position a known byte tells one from the other. */
  ghost predicate Apart(k: Known, i: nat, j: nat)
    requires k.Valid() && i < |k.bounds| && j < |k.bounds|
  {
    || (forall x: nat :: !(k.bounds[i].Contains(x) && k.bounds[j].Contains(x)))
    || (exists p: nat :: ToldApart(k, p, i, j) || ToldApart(k, p, j, i))
  }

  ghost predicate AllToldApart(k: Known)
    requires k.Valid()
  {
    forall i: nat, j: nat | i < j < |k.bounds| :: Apart(k, i, j)
  }

  lemma TwoOf(candidates: Candidates) returns (a: nat, b: nat)
    requires |candidates| > 1
    ensures a in candidates && b in candidates && a < b
  {
    var i :| i in candidates;
    var j :| j in candidates - {i} by {
      assert |candidates - {i}| == |candidates| - 1;
    }
    return if i < j then i else j, if i < j then j else i;
  }

  lemma AlikeAreNotToldApart(k: Known)
    requires k.Valid() && SomeAlike(k)
    ensures !AllToldApart(k)
  {
    var candidates :| Alike(k, candidates);
    var x: nat :| candidates <= k.WithSize(x);
    var a, b := TwoOf(candidates);
    assert k.bounds[a].Contains(x) && k.bounds[b].Contains(x);
    forall p: nat
      ensures !ToldApart(k, p, a, b) && !ToldApart(k, p, b, a)
    {
      assert Blind(k, candidates, p);
    }
    assert !Apart(k, a, b);
  }

  lemma KnownIsValid(layouts: seq<Layout>)
    ensures KnownOf(layouts).Valid()
  {
    var k := KnownOf(layouts);
    forall b | b in k.bounds
      ensures AtLeast(b.upper, b.lower)
    {
      var i :| 0 <= i < |layouts| && k.bounds[i] == b;
      BoundsProper(layouts[i]);
    }
  }

  /** Layouts whose constants fit and are recorded where they are, and of which every two are told apart. */
  ghost predicate Discernible(layouts: seq<Layout>) {
    KnownIsValid(layouts);
    && |layouts| > 0 && (forall l <- layouts :: Anchored(l, NOTHING) && ConstantsFit(l))
    && AllToldApart(KnownOf(layouts))
  }

  /** layoutDiscriminator. It refuses layouts only if they are empty or misfits, or ambiguous where that is not allowed. */
  method LayoutDiscriminator(layouts: seq<Layout>, allowAmbiguous: bool) returns (r: Result<Discriminator>)
    ensures r.Ok? ==> |layouts| > 0 && Describes(KnownOf(layouts), layouts) && KnownOf(layouts).Valid()
                      && exists distinguishable ::
                           Generated(KnownOf(layouts), r.value, distinguishable) && (distinguishable || allowAmbiguous)
    ensures allowAmbiguous && (forall l <- layouts :: Anchored(l, NOTHING)) ==>
              (r.Ok? <==> |layouts| > 0 && forall l <- layouts :: ConstantsFit(l))
    ensures Discernible(layouts) ==> r.Ok?
  {
    var generated := GenerateLayoutDiscriminator(layouts);
    if generated.Err? {
      return Err(generated.error);
    }
    var (distinguishable, discriminator) := generated.value;
    if !distinguishable && !allowAmbiguous {
      if forall l <- layouts :: Anchored(l, NOTHING) {
        KnownIsValid(layouts);
        AnchoredIsWellPlaced(KnownOf(layouts), layouts);
        AlikeAreNotToldApart(KnownOf(layouts));
      }
      return Err(Invalid("Cannot uniquely distinguished the given layouts"));
    }
    return Ok(discriminator);
  }

  /** The tree has an answer for data of this size of layout `i`, whatever it asks: `Recognizable`, for layouts. */
  ghost predicate TreeKnows(d: Discriminator, layouts: seq<Layout>, i: nat, size: nat)
    requires i < |layouts|
  {
    var k := KnownOf(layouts);
    && (forall l <- layouts :: Anchored(l, NOTHING)) && (UsesSize(d) ==> size == LayoutBounds(layouts[i]).lower)
    && forall p <- Positions(d) :: ValuesAt(k.fixed[i], p) != [] || (size <= p && |k.OutOfBounds(p)| <= 1)
  }

  /**
   * What the answer `r` must be on a serialization of layout `i` of some size.
   *  - A perfect size discriminator recognizes every serialization of every layout.
   *  - A strategy tree recognizes every tractable serialization, if it comes to an answer, and it comes to one
   *    if it asks for nothing that is not known of the layout.
   *  - A perfect byte discriminator recognizes one exactly if it is too short for the position, or the layout
   *    is sure to reach it and some layout fixes it; if none does, it answers with nothing.
   */
  ghost predicate RightAnswer(d: Discriminator, layouts: seq<Layout>, i: nat, size: nat, r: Outcome)
    requires i < |layouts|
  {
    match d
    case PerfectSize(_, _) => r == Found([i])
    case StrategyTree(_, _, _, _, _) =>
      && (r.Found? && Tractable(d, layouts[i], size) ==> r == Found([i]))
      && (TreeKnows(d, layouts, i, size) ==> r == Found([i]))
    case PerfectByte(step, _) =>
      (forall l <- layouts :: Anchored(l, NOTHING)) ==>
        var p, lower := step.bytePos, LayoutBounds(layouts[i]).lower;
        && (r == Found([i]) <==> size <= p || (p < lower && |step.distinct| > 0))
        && (p < lower && |step.distinct| == 0 ==> r == Found([]))
  }

  /** An index, or null if there is none. */
  function FirstOf(r: Outcome): Outcome {
    if r.Found? && |r.indices| > 0 then Found([r.indices[0]]) else r
  }

  /** The function handed out when ambiguity is not allowed. */
  method DiscriminateOne(d: Discriminator, encoded: bytes, ghost k: Known, ghost layouts: seq<Layout>)
    returns (r: Outcome)
    requires Describes(k, layouts) && k.Valid() && Fits(k, d, true)
    ensures r == FirstOf(Answer(d, k, encoded)) && (r.Found? ==> |r.indices| <= 1)
    ensures forall i: nat, data | Serializes(layouts, i, data, encoded) :: RightAnswer(d, layouts, i, |encoded|, r)
  {
    var outcome := Run(d, encoded, k, true);
    forall i: nat, data | Serializes(layouts, i, data, encoded)
      ensures RightAnswer(d, layouts, i, |encoded|, FirstOf(outcome))
    {
      AnswerIsRight(d, encoded, k, layouts, i, data);
    }
    return FirstOf(outcome);
  }

  lemma AnswerIsRight(d: Discriminator, encoded: bytes, k: Known, layouts: seq<Layout>, i: nat, data: Value)
    requires Describes(k, layouts) && k.Valid() && Fits(k, d, true) && Serializes(layouts, i, data, encoded)
    ensures RightAnswer(d, layouts, i, |encoded|, FirstOf(Answer(d, k, encoded)))
  {
    if d.PerfectSize? {
      OnlySizeFits(k, layouts, i, data, encoded);
    } else if d.StrategyTree? {
      TreeIsRight(d, encoded, k, layouts, i, data);
    } else {
      ByteIsRight(d, encoded, k, layouts, i, data);
    }
  }

  lemma ByteIsRight(d: Discriminator, encoded: bytes, k: Known, layouts: seq<Layout>, i: nat, data: Value)
    requires Describes(k, layouts) && k.Valid() && d.PerfectByte? && d.layoutCount == |k.bounds|
    requires StepAt(k, d.step.bytePos, d.step) && d.step.power == |k.bounds| - 1
    requires Serializes(layouts, i, data, encoded)
    ensures RightAnswer(d, layouts, i, |encoded|, FirstOf(Found(ToArray(ByteAnswer(d.step, encoded), d.layoutCount))))
  {
    if forall l <- layouts :: Anchored(l, NOTHING) {
      PerfectByteIsRight(d.step, k, layouts, i, data, encoded);
    }
  }

  lemma TreeIsRight(d: Discriminator, encoded: bytes, k: Known, layouts: seq<Layout>, i: nat, data: Value)
    requires Describes(k, layouts) && k.Valid() && d.StrategyTree? && Fits(k, d, true)
    requires Serializes(layouts, i, data, encoded)
    ensures RightAnswer(d, layouts, i, |encoded|, FirstOf(Answer(d, k, encoded)))
  {
    if Tractable(d, layouts[i], |encoded|) {
      TractableIsReliable(d, k, layouts, i, data, encoded);
      FoundIfReliable(d, k, i, encoded);
    }
    if TreeKnows(d, layouts, i, |encoded|) {
      AnchoredIsWellPlaced(k, layouts);
      KnownIsRecognizable(d, k, layouts, i, data, encoded);
      RecognizableIsReliable(k, d, i, encoded);
      FoundIfReliable(d, k, i, encoded);
      WeakerFits(k, d);
      TreeAnswers(d, k, i, encoded);
    }
  }

  lemma FoundIfReliable(d: Discriminator, k: Known, i: nat, encoded: bytes)
    requires d.StrategyTree? && k.Valid() && Fits(k, d, true) && Reliable(k, Positions(d), i, encoded)
    ensures Answer(d, k, encoded).Found? ==> FirstOf(Answer(d, k, encoded)) == Found([i])
  {
    TreeFinds(d, k, true, encoded);
    var r := Answer(d, k, encoded);
    if r.Found? {
      OnlyIndex(r.indices, i);
    }
  }

  lemma OnlyIndex(indices: seq<nat>, i: nat)
    requires |indices| <= 1 && i in indices
    ensures FirstOf(Found(indices)) == Found([i])
  {
  }

  lemma WeakerFits(k: Known, d: Discriminator)
    requires k.Valid() && Fits(k, d, true)
    ensures Fits(k, d, false)
  {
  }

  lemma KnownIsRecognizable(d: Discriminator, k: Known, layouts: seq<Layout>, i: nat, data: Value, encoded: bytes)
    requires Describes(k, layouts) && k.Valid() && Serializes(layouts, i, data, encoded)
    requires TreeKnows(d, layouts, i, |encoded|)
    ensures Recognizable(k, d, i, encoded)
  {
    DescribedIsKnown(k, layouts);
    assert layouts[i] in layouts;
    SerializationConforms(k, layouts, i, data, encoded);
  }

  lemma OnlySizeFits(k: Known, layouts: seq<Layout>, i: nat, data: Value, encoded: bytes)
    requires Describes(k, layouts) && k.Valid() && Serializes(layouts, i, data, encoded)
    requires forall x: nat :: |k.WithSize(x)| <= 1
    ensures ToArray(k.WithSize(|encoded|), |k.bounds|) == [i]
  {
    BoundsHold(layouts[i], data);
    assert |k.WithSize(|encoded|)| <= 1;
    OnlyElement(k.WithSize(|encoded|), i, |k.bounds|);
  }

  lemma TractableIsReliable(d: Discriminator, k: Known, layouts: seq<Layout>, i: nat, data: Value, encoded: bytes)
    requires Describes(k, layouts) && k.Valid() && Serializes(layouts, i, data, encoded)
    requires Tractable(d, layouts[i], |encoded|)
    ensures Reliable(k, Positions(d), i, encoded)
  {
    SerializationConforms(k, layouts, i, data, encoded);
  }

  lemma PerfectByteIsRight(step: ByteStep, k: Known, layouts: seq<Layout>, i: nat, data: Value, encoded: bytes)
    requires Describes(k, layouts) && k.Valid() && Serializes(layouts, i, data, encoded)
    requires StepAt(k, step.bytePos, step) && step.power == |k.bounds| - 1
    requires forall l <- layouts :: Anchored(l, NOTHING)
    ensures var p, lower, answer := step.bytePos, k.bounds[i].lower, ToArray(ByteAnswer(step, encoded), |k.bounds|);
            && |answer| <= 1
            && (answer == [i] <==> |encoded| <= p || (p < lower && |step.distinct| > 0))
            && (p < lower && |step.distinct| == 0 ==> answer == [])
  {
    assert layouts[i] in layouts;
    SerializationConforms(k, layouts, i, data, encoded);
    AnchoredIsWellPlaced(k, layouts);
    PerfectByteAnswer(k, step.bytePos, step, i, encoded);
    PerfectByteIsUnambiguous(k, step.bytePos, step, encoded);
    AnswerAsList(ByteAnswer(step, encoded), i, |k.bounds|);
  }

  lemma {:induction false} NoElement(n: nat)
    ensures ToArray({}, n) == []
  {
    if n > 0 {
      NoElement(n - 1);
    }
  }

  lemma AnswerAsList(candidates: Candidates, i: nat, n: nat)
    requires |candidates| <= 1 && i < n
    ensures |ToArray(candidates, n)| <= 1
    ensures ToArray(candidates, n) == [i] <==> candidates == {i}
    ensures candidates == {} ==> ToArray(candidates, n) == []
  {
    NoElement(n);
    if candidates != {} {
      var j :| j in candidates;
      SingletonIs(candidates, j);
      if j < n {
        OnlyElement(candidates, j, n);
      } else {
        ToArraySame(candidates, {}, n);
      }
    }
  }

  lemma OnlyElement(candidates: Candidates, i: nat, n: nat)
    requires i in candidates && |candidates| <= 1 && i < n
    ensures ToArray(candidates, n) == [i]
  {
    SingletonIs(candidates, i);
    ToArrayLength(candidates, n);
    assert i in ToArray(candidates, n);
  }
}
