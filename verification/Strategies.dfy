// discriminate.ts: recursivelyBuildStrategy. For a set of candidates it picks what is sure to eliminate the most -
// a look at one byte or at the size - and goes on with the candidates that each answer leaves.
module Strategies {
  import opened Common
  import opened LayoutMeta
  import opened OrderedMap
  import opened Sorting
  import opened Sweep
  import opened Knowledge
  import opened ByteSteps

  datatype Strategy =
    | ByByte(bytePos: nat, outOfBounds: Candidates, distinct: ByValue)
    | BySize
    | Indistinguishable

  /** The tables of position `p`, restricted to the candidates: who is too short, and who has which known byte. */
  ghost predicate Tables(k: Known, candidates: Candidates, p: nat, outOfBounds: Candidates, groups: ByValue)
    requires k.Valid()
  {
    && outOfBounds == k.OutOfBounds(p) * candidates
    && KeysDistinct(groups)
    && (forall e <- groups :: e.1 != {} && e.1 == k.FixedWith(p, e.0) * candidates)
    && (forall v: byte | k.FixedWith(p, v) * candidates != {} :: HasKey(groups, v))
  }

  ghost predicate Sound(k: Known, candidates: Candidates, s: Strategy)
    requires k.Valid()
  {
    s.ByByte? ==> Tables(k, candidates, s.bytePos, s.outOfBounds, s.distinct)
  }

  // ---- what a strategy is worth -----------------------------------------------------------

  /** The candidates that have the smallest size of layout `i`. */
  ghost function Overlap(k: Known, candidates: Candidates, i: nat): Candidates
    requires i < |k.bounds|
  {
    k.WithSize(k.bounds[i].lower) * candidates
  }

  /** No size that is the lower bound of a candidate fits more than all but `n` of the candidates. */
  ghost predicate SizeEliminates(k: Known, candidates: Candidates, n: int) {
    forall i {:trigger Overlap(k, candidates, i)} | i in candidates && i < |k.bounds| ::
      n <= |candidates| - |Overlap(k, candidates, i)|
  }

  ghost predicate Eliminates(k: Known, candidates: Candidates, s: Strategy, n: int)
    requires k.Valid()
  {
    match s
    case ByByte(p, _, _) => ByteEliminates(k, candidates, p, n)
    case BySize => SizeEliminates(k, candidates, n)
    case Indistinguishable => n <= 0
  }

  /** The size, or one of the ranked bytes within its recorded power, would eliminate `n`. */
  ghost predicate Offered(k: Known, candidates: Candidates, steps: seq<ByteStep>, n: int)
    requires k.Valid()
  {
    || SizeEliminates(k, candidates, n)
    || exists step <- steps :: n <= step.power && ByteEliminates(k, candidates, step.bytePos, n)
  }

  /** The strategy eliminates as much as anything that was on offer. */
  ghost predicate Greedy(k: Known, candidates: Candidates, steps: seq<ByteStep>, s: Strategy)
    requires k.Valid()
  {
    forall n | n > 0 && Offered(k, candidates, steps, n) :: Eliminates(k, candidates, s, n)
  }

  ghost predicate Splits(k: Known, candidates: Candidates, s: Strategy)
    requires k.Valid()
  {
    s != Indistinguishable ==> Eliminates(k, candidates, s, 1)
  }

  // ---- what a strategy leads to -----------------------------------------------------------

  /** The candidates left if the byte at position `p` is `v`. */
  ghost function WithValue(k: Known, candidates: Candidates, p: nat, v: byte): Candidates
    requires k.Valid()
  {
    (k.FixedWith(p, v) + k.AnyAt(p)) * candidates
  }

  /** A set of candidates that an answer to the question of the strategy leaves. */
  ghost predicate Branch(k: Known, made: Candidates, s: Strategy, left: Candidates)
    requires k.Valid()
  {
    match s
    case ByByte(p, outOfBounds, distinct) =>
      left == outOfBounds || exists e <- distinct :: left == WithValue(k, made, p, e.0)
    case BySize => exists i {:trigger Overlap(k, made, i)} | i in made && i < |k.bounds| :: left == Overlap(k, made, i)
    case Indistinguishable => false
  }

  /** Nothing more to do, or less than before and with a strategy of its own. */
  ghost predicate Settled(strategies: map<Candidates, Strategy>, made: Candidates, left: Candidates) {
    |left| <= 1 || (left < made && left in strategies)
  }

  /**
   * Every branch is settled. Only where a byte is taken for perfect, the candidates that are too short for it
   * need not be: what a byte eliminates does not count on data that has no such byte.
   */
  ghost predicate Complete(k: Known, strategies: map<Candidates, Strategy>, made: Candidates, s: Strategy)
    requires k.Valid()
  {
    match s
    case ByByte(p, outOfBounds, distinct) =>
      && (forall e <- distinct :: Settled(strategies, made, WithValue(k, made, p, e.0)))
      && (ByteEliminates(k, made, p, |made| - 1) || Settled(strategies, made, outOfBounds))
    case BySize =>
      forall i {:trigger Overlap(k, made, i)} | i in made && i < |k.bounds| :: Settled(strategies, made, Overlap(k, made, i))
    case Indistinguishable => true
  }

  /** The set is a branch of the first strategy or of a filed one. */
  ghost predicate HasParent(k: Known, first: Strategy, strategies: map<Candidates, Strategy>, left: Candidates)
    requires k.Valid()
  {
    || (left < k.All() && Branch(k, k.All(), first, left))
    || exists made <- strategies :: left < made && Branch(k, made, strategies[made], left)
  }

  ghost predicate WellFiled(k: Known, first: Strategy, strategies: map<Candidates, Strategy>, c: Candidates)
    requires k.Valid()
  {
    && c in strategies && |c| > 1 && HasParent(k, first, strategies, c)
    && Splits(k, c, strategies[c]) && Complete(k, strategies, c, strategies[c])
  }

  ghost predicate Grows(before: map<Candidates, Strategy>, after: map<Candidates, Strategy>) {
    before.Keys <= after.Keys && forall c <- before :: after[c] == before[c]
  }

  /** All that was filed in between is well filed. */
  ghost predicate FiledWell(k: Known, first: Strategy, before: map<Candidates, Strategy>, after: map<Candidates, Strategy>)
    requires k.Valid()
  {
    Grows(before, after) && forall c <- after :: c in before || WellFiled(k, first, after, c)
  }

  /** The first strategy is as good as any, and it and all others are complete. */
  ghost predicate WellBuilt(k: Known, first: Strategy, strategies: map<Candidates, Strategy>)
    requires k.Valid()
  {
    && Splits(k, k.All(), first) && Complete(k, strategies, k.All(), first)
    && forall c <- strategies :: WellFiled(k, first, strategies, c)
  }

  lemma SettledLater(before: map<Candidates, Strategy>, after: map<Candidates, Strategy>, made: Candidates, left: Candidates)
    requires Grows(before, after) && Settled(before, made, left)
    ensures Settled(after, made, left)
  {
  }

  lemma CompleteLater(k: Known, before: map<Candidates, Strategy>, after: map<Candidates, Strategy>, made: Candidates, s: Strategy)
    requires k.Valid() && Grows(before, after) && Complete(k, before, made, s)
    ensures Complete(k, after, made, s)
  {
    match s
    case ByByte(p, outOfBounds, distinct) =>
      forall e | e in distinct
        ensures Settled(after, made, WithValue(k, made, p, e.0))
      {
        SettledLater(before, after, made, WithValue(k, made, p, e.0));
      }
    case BySize =>
      forall i | i in made && i < |k.bounds|
        ensures Settled(after, made, Overlap(k, made, i))
      {
        SettledLater(before, after, made, Overlap(k, made, i));
      }
    case Indistinguishable =>
  }

  lemma HasParentLater(k: Known, first: Strategy, before: map<Candidates, Strategy>, after: map<Candidates, Strategy>, c: Candidates)
    requires k.Valid() && Grows(before, after) && HasParent(k, first, before, c)
    ensures HasParent(k, first, after, c)
  {
    if !(c < k.All() && Branch(k, k.All(), first, c)) {
      var made :| made in before && c < made && Branch(k, made, before[made], c);
      assert made in after && after[made] == before[made];
    }
  }

  lemma FiledWellLater(k: Known, first: Strategy, before: map<Candidates, Strategy>, between: map<Candidates, Strategy>,
                       after: map<Candidates, Strategy>)
    requires k.Valid() && FiledWell(k, first, before, between) && FiledWell(k, first, between, after)
    ensures FiledWell(k, first, before, after)
  {
    forall c | c in after && c !in before
      ensures WellFiled(k, first, after, c)
    {
      if c in between {
        CompleteLater(k, between, after, c, between[c]);
        HasParentLater(k, first, between, after, c);
      }
    }
  }

  /** A strategy that was filed before its branches were settled. */
  lemma FiledFirst(k: Known, first: Strategy, before: map<Candidates, Strategy>, after: map<Candidates, Strategy>,
                   c: Candidates, s: Strategy)
    requires k.Valid() && c !in before && FiledWell(k, first, before[c := s], after)
    requires |c| > 1 && HasParent(k, first, before, c) && Splits(k, c, s) && Complete(k, after, c, s)
    ensures FiledWell(k, first, before, after)
  {
    HasParentLater(k, first, before, after, c);
  }

  // ---- narrowing byte steps ---------------------------------------------------------------

  /** A byte step that can be narrowed to any subset of `candidates`. */
  ghost predicate Usable(k: Known, candidates: Candidates, step: ByteStep)
    requires k.Valid()
  {
    && step.power > 0
    && step.outOfBounds * candidates == k.OutOfBounds(step.bytePos) * candidates
    && step.anyValue * candidates == k.AnyAt(step.bytePos) * candidates
    && KeysDistinct(step.distinct)
    && (forall e <- step.distinct :: e.1 * candidates == k.FixedWith(step.bytePos, e.0) * candidates)
    && (forall v: byte | k.FixedWith(step.bytePos, v) * candidates != {} :: HasKey(step.distinct, v))
  }

  ghost predicate AllUsable(k: Known, candidates: Candidates, steps: seq<ByteStep>)
    requires k.Valid()
  {
    forall step <- steps :: Usable(k, candidates, step)
  }

  lemma SubsetOfBoth(a: Candidates, b: Candidates, candidates: Candidates, fewer: Candidates)
    requires a * candidates == b * candidates && fewer <= candidates
    ensures a * fewer == b * fewer
  {
    assert a * fewer == (a * candidates) * fewer;
    assert b * fewer == (b * candidates) * fewer;
  }

  lemma UsableForFewer(k: Known, candidates: Candidates, fewer: Candidates, step: ByteStep)
    requires k.Valid() && Usable(k, candidates, step) && fewer <= candidates
    ensures Usable(k, fewer, step)
  {
    var p := step.bytePos;
    SubsetOfBoth(step.outOfBounds, k.OutOfBounds(p), candidates, fewer);
    SubsetOfBoth(step.anyValue, k.AnyAt(p), candidates, fewer);
    forall e | e in step.distinct
      ensures e.1 * fewer == k.FixedWith(p, e.0) * fewer
    {
      SubsetOfBoth(e.1, k.FixedWith(p, e.0), candidates, fewer);
    }
    forall v: byte | k.FixedWith(p, v) * fewer != {}
      ensures HasKey(step.distinct, v)
    {
      assert k.FixedWith(p, v) * fewer <= k.FixedWith(p, v) * candidates;
    }
  }

  lemma AllUsableForFewer(k: Known, candidates: Candidates, fewer: Candidates, steps: seq<ByteStep>)
    requires k.Valid() && AllUsable(k, candidates, steps) && fewer <= candidates
    ensures AllUsable(k, fewer, steps)
  {
    forall step | step in steps
      ensures Usable(k, fewer, step)
    {
      UsableForFewer(k, candidates, fewer, step);
    }
  }

  /** A byte step made for these candidates, with some known byte. */
  ghost predicate Narrow(k: Known, candidates: Candidates, step: ByteStep)
    requires k.Valid()
  {
    && step.power > 0 && |step.distinct| > 0
    && Tables(k, candidates, step.bytePos, step.outOfBounds, step.distinct)
    && step.anyValue == k.AnyAt(step.bytePos) * candidates
  }

  ghost predicate AllNarrow(k: Known, candidates: Candidates, steps: seq<ByteStep>)
    requires k.Valid()
  {
    forall step <- steps :: Narrow(k, candidates, step)
  }

  lemma NarrowIsUsable(k: Known, candidates: Candidates, steps: seq<ByteStep>)
    requires k.Valid() && AllNarrow(k, candidates, steps)
    ensures AllUsable(k, candidates, steps)
  {
    forall step | step in steps
      ensures Usable(k, candidates, step)
    {
      assert Narrow(k, candidates, step);
      assert step.outOfBounds * candidates == step.outOfBounds;
      assert step.anyValue * candidates == step.anyValue;
      assert forall e <- step.distinct :: e.1 * candidates == e.1;
    }
  }

  function SumOfCounts(groups: ByValue): nat {
    if |groups| == 0 then 0 else SumOfCounts(groups[..|groups| - 1]) + |groups[|groups| - 1].1|
  }

  function UnionOf(groups: ByValue): Candidates {
    if |groups| == 0 then {} else UnionOf(groups[..|groups| - 1]) + groups[|groups| - 1].1
  }

  lemma {:induction false} UnionMembers(groups: ByValue)
    ensures forall i: nat :: i in UnionOf(groups) <==> exists e <- groups :: i in e.1
  {
    if |groups| > 0 {
      var front, last := groups[..|groups| - 1], groups[|groups| - 1];
      UnionMembers(front);
      assert groups == front + [last];
      assert forall e :: e in groups <==> e in front || e == last;
    }
  }

  lemma {:induction false} SumIsUnion(groups: ByValue)
    requires forall a, b | 0 <= a < b < |groups| :: groups[a].1 !! groups[b].1
    ensures SumOfCounts(groups) == |UnionOf(groups)|
  {
    if |groups| > 0 {
      var front, last := groups[..|groups| - 1], groups[|groups| - 1];
      SumIsUnion(front);
      UnionMembers(front);
      forall i | i in UnionOf(front)
        ensures i !in last.1
      {
        var e :| e in front && i in e.1;
        var a :| 0 <= a < |front| && front[a] == e;
        assert groups[a].1 !! groups[|groups| - 1].1;
      }
      assert |UnionOf(front) + last.1| == |UnionOf(front)| + |last.1|;
    }
  }

  lemma {:induction false} SumCovers(groups: ByValue, e: (byte, Candidates))
    requires e in groups
    ensures |e.1| <= SumOfCounts(groups)
  {
    var front, last := groups[..|groups| - 1], groups[|groups| - 1];
    assert groups == front + [last];
    if e != last {
      SumCovers(front, e);
    }
  }

  /** fixedKnownCount is the number of candidates known by their byte. */
  lemma SumIsKnown(k: Known, candidates: Candidates, p: nat, outOfBounds: Candidates, groups: ByValue)
    requires k.Valid() && WellPlaced(k) && Tables(k, candidates, p, outOfBounds, groups)
    ensures SumOfCounts(groups) == |k.FixedAt(p) * candidates|
  {
    forall a, b | 0 <= a < b < |groups|
      ensures groups[a].1 !! groups[b].1
    {
      assert groups[a] in groups && groups[b] in groups;
      DifferentValues(k, p, groups[a].0, groups[b].0);
    }
    SumIsUnion(groups);
    UnionMembers(groups);
    forall i: nat
      ensures i in UnionOf(groups) <==> i in k.FixedAt(p) * candidates
    {
      KnownJustIfGrouped(k, candidates, p, outOfBounds, groups, i);
    }
    assert UnionOf(groups) == k.FixedAt(p) * candidates;
  }

  lemma KnownJustIfGrouped(k: Known, candidates: Candidates, p: nat, outOfBounds: Candidates, groups: ByValue, i: nat)
    requires k.Valid() && Tables(k, candidates, p, outOfBounds, groups)
    ensures (exists e <- groups :: i in e.1) <==> i in k.FixedAt(p) * candidates
  {
    if e :| e in groups && i in e.1 {
      assert i in k.FixedWith(p, e.0) * candidates;
    }
    if i in k.FixedAt(p) * candidates {
      var v := ValuesAt(k.fixed[i], p)[0];
      assert i in k.FixedWith(p, v) * candidates;
      var a :| 0 <= a < |groups| && groups[a].0 == v;
      assert groups[a] in groups;
    }
  }

  lemma DifferentValues(k: Known, p: nat, v: byte, w: byte)
    requires k.Valid() && WellPlaced(k) && v != w
    ensures k.FixedWith(p, v) !! k.FixedWith(p, w)
  {
    forall i | i in k.FixedWith(p, v)
      ensures i !in k.FixedWith(p, w)
    {
      assert |ValuesAt(k.fixed[i], p)| <= 1;
    }
  }

  /** The groups that have candidates, each reduced to them. */
  ghost predicate NarrowedTo(groups: ByValue, candidates: Candidates, narrowed: ByValue) {
    && KeysDistinct(narrowed)
    && (forall e <- narrowed :: e.1 != {} && exists g <- groups :: g.0 == e.0 && e.1 == g.1 * candidates)
    && (forall g <- groups :: g.1 * candidates != {} ==> (g.0, g.1 * candidates) in narrowed)
  }

  function Narrowing(narrowed: ByValue, v: byte, lwv: Candidates): ByValue {
    if |lwv| > 0 then narrowed + [(v, lwv)] else narrowed
  }

  lemma NarrowNext(groups: ByValue, g: (byte, Candidates), candidates: Candidates, narrowed: ByValue)
    requires KeysDistinct(groups + [g]) && NarrowedTo(groups, candidates, narrowed)
    ensures NarrowedTo(groups + [g], candidates, Narrowing(narrowed, g.0, g.1 * candidates))
  {
    var lwv := g.1 * candidates;
    var narrowed' := Narrowing(narrowed, g.0, lwv);
    assert forall e :: e in narrowed' ==> e in narrowed || (lwv != {} && e == (g.0, lwv));
    NarrowedFrom(groups, g, candidates, narrowed);
    NarrowedKeys(narrowed, g.0, lwv);
    forall h | h in groups + [g] && h.1 * candidates != {}
      ensures (h.0, h.1 * candidates) in narrowed'
    {
      if h in groups {
        assert (h.0, h.1 * candidates) in narrowed;
      }
    }
    assert g in groups + [g];
  }

  lemma NarrowedFrom(groups: ByValue, g: (byte, Candidates), candidates: Candidates, narrowed: ByValue)
    requires KeysDistinct(groups + [g]) && NarrowedTo(groups, candidates, narrowed)
    ensures forall e <- narrowed ::
              e.0 != g.0 && e.1 != {} && exists h <- groups + [g] :: h.0 == e.0 && e.1 == h.1 * candidates
  {
    forall e | e in narrowed
      ensures e.0 != g.0 && e.1 != {} && exists h <- groups + [g] :: h.0 == e.0 && e.1 == h.1 * candidates
    {
      var h :| h in groups && h.0 == e.0 && e.1 == h.1 * candidates;
      var a :| 0 <= a < |groups| && groups[a] == h;
      assert (groups + [g])[a].0 != (groups + [g])[|groups|].0;
      assert h in groups + [g];
    }
  }

  lemma NarrowedKeys(narrowed: ByValue, v: byte, lwv: Candidates)
    requires KeysDistinct(narrowed) && forall e <- narrowed :: e.0 != v
    ensures KeysDistinct(Narrowing(narrowed, v, lwv))
    ensures SumOfCounts(Narrowing(narrowed, v, lwv)) == SumOfCounts(narrowed) + |lwv|
  {
    assert forall a | 0 <= a < |narrowed| :: narrowed[a] in narrowed;
    assert (narrowed + [(v, lwv)])[..|narrowed|] == narrowed;
  }

  /** narrowedDistinctValues and fixedKnownCount. */
  method NarrowGroups(groups: ByValue, candidates: Candidates) returns (narrowed: ByValue, fixedKnownCount: nat)
    requires KeysDistinct(groups)
    ensures NarrowedTo(groups, candidates, narrowed) && fixedKnownCount == SumOfCounts(narrowed)
  {
    narrowed, fixedKnownCount := [], 0;
    for j := 0 to |groups|
      invariant NarrowedTo(groups[..j], candidates, narrowed) && fixedKnownCount == SumOfCounts(narrowed)
    {
      var lwv := groups[j].1 * candidates;
      assert groups[..j + 1] == groups[..j] + [groups[j]];
      NarrowNext(groups[..j], groups[j], candidates, narrowed);
      NarrowedFrom(groups[..j], groups[j], candidates, narrowed);
      NarrowedKeys(narrowed, groups[j].0, lwv);
      if |lwv| > 0 {
        // the keys of a Map are distinct, so that each value is set only once
        narrowed := narrowed + [(groups[j].0, lwv)];
        fixedKnownCount := fixedKnownCount + |lwv|;
      }
    }
    assert groups[..|groups|] == groups;
  }

  /** One entry of bestBytes, restricted to `candidates`: the inherited power, if the byte still eliminates that many. */
  method NarrowStep(k: Known, step: ByteStep, candidates: Candidates) returns (narrowed: ByteStep)
    requires k.Valid() && Usable(k, candidates, step)
    ensures narrowed.bytePos == step.bytePos && narrowed.power >= 0
    ensures narrowed.power > 0 ==> Narrow(k, candidates, narrowed)
    ensures WellPlaced(k) ==>
              forall n | n > 0 ::
                n <= narrowed.power <==> n <= step.power && ByteEliminates(k, candidates, step.bytePos, n)
  {
    var narrowedDistinctValues, fixedKnownCount := NarrowGroups(step.distinct, candidates);
    var narrowedOutOfBoundsLayouts := step.outOfBounds * candidates;
    var start := if |narrowedDistinctValues| > 0 then step.power else 0;
    var narrowedPower := Power(start, fixedKnownCount, |narrowedOutOfBoundsLayouts|, narrowedDistinctValues);
    NarrowedTables(k, step, candidates, narrowedDistinctValues);
    NarrowedPower(k, candidates, step.bytePos, narrowedOutOfBoundsLayouts, narrowedDistinctValues, step.power, narrowedPower);
    narrowed := ByteStep(narrowedPower, step.bytePos, narrowedOutOfBoundsLayouts, narrowedDistinctValues,
                         step.anyValue * candidates);
  }

  lemma NarrowedTables(k: Known, step: ByteStep, candidates: Candidates, narrowed: ByValue)
    requires k.Valid() && Usable(k, candidates, step) && NarrowedTo(step.distinct, candidates, narrowed)
    ensures Tables(k, candidates, step.bytePos, step.outOfBounds * candidates, narrowed)
  {
    forall e | e in narrowed
      ensures e.1 == k.FixedWith(step.bytePos, e.0) * candidates
    {
      var g :| g in step.distinct && g.0 == e.0 && e.1 == g.1 * candidates;
    }
    forall v: byte | k.FixedWith(step.bytePos, v) * candidates != {}
      ensures HasKey(narrowed, v)
    {
      var a :| 0 <= a < |step.distinct| && step.distinct[a].0 == v;
      var g := step.distinct[a];
      assert g in step.distinct;
      assert (g.0, g.1 * candidates) in narrowed;
    }
  }

  lemma NarrowedPower(k: Known, candidates: Candidates, p: nat, outOfBounds: Candidates, groups: ByValue, cap: int, power: int)
    requires k.Valid() && Tables(k, candidates, p, outOfBounds, groups) && cap > 0
    requires IsPower(power, if |groups| > 0 then cap else 0, SumOfCounts(groups), |outOfBounds|, groups)
    ensures power >= 0 && (power > 0 ==> |groups| > 0)
    ensures WellPlaced(k) ==> forall n | n > 0 :: n <= power <==> n <= cap && ByteEliminates(k, candidates, p, n)
  {
    forall e | e in groups
      ensures |e.1| <= SumOfCounts(groups)
    {
      SumCovers(groups, e);
    }
    if WellPlaced(k) {
      SumIsKnown(k, candidates, p, outOfBounds, groups);
      forall n | n > 0
        ensures n <= power <==> n <= cap && ByteEliminates(k, candidates, p, n)
      {
        if |groups| > 0 {
          assert groups[0] in groups;
          SumCovers(groups, groups[0]);
          AtMostPower(k, candidates, p, outOfBounds, groups, cap, power, n);
        }
      }
    }
  }

  lemma AtMostPower(k: Known, candidates: Candidates, p: nat, outOfBounds: Candidates, groups: ByValue, cap: int, power: int, n: int)
    requires k.Valid() && Tables(k, candidates, p, outOfBounds, groups) && |groups| > 0
    requires SumOfCounts(groups) == |k.FixedAt(p) * candidates| > 0
    requires IsPower(power, cap, SumOfCounts(groups), |outOfBounds|, groups)
    ensures n <= power <==> n <= cap && ByteEliminates(k, candidates, p, n)
  {
    assert k.FixedAt(p) * candidates != {};
    if n <= power {
      forall v: byte | k.FixedWith(p, v) * candidates != {}
        ensures n <= |k.FixedAt(p) * candidates| - |k.FixedWith(p, v) * candidates| + |k.OutOfBounds(p) * candidates|
      {
        var a :| 0 <= a < |groups| && groups[a].0 == v;
        assert groups[a] in groups;
      }
    }
    if n <= cap && ByteEliminates(k, candidates, p, n) {
      forall e | e in groups
        ensures n <= SumOfCounts(groups) - |e.1| + |outOfBounds|
      {
        assert k.FixedWith(p, e.0) * candidates != {};
      }
    }
  }

  // ---- the branches of a strategy ---------------------------------------------------------

  /** Where some byte value eliminates one, every branch of the strategy is smaller, and none of them is told apart by it. */
  lemma ByteBranchesShrink(k: Known, candidates: Candidates, step: ByteStep)
    requires k.Valid() && WellPlaced(k) && candidates <= k.All() && Narrow(k, candidates, step)
    requires ByteEliminates(k, candidates, step.bytePos, 1)
    ensures step.outOfBounds < candidates
    ensures forall e <- step.distinct ::
              && e.1 + step.anyValue == WithValue(k, candidates, step.bytePos, e.0) < candidates
              && Blind(k, e.1 + step.anyValue, step.bytePos)
  {
    var p := step.bytePos;
    var i :| i in k.FixedAt(p) * candidates;
    assert p < k.bounds[i].lower && i !in step.outOfBounds;
    forall e | e in step.distinct
      ensures e.1 + step.anyValue == WithValue(k, candidates, p, e.0) < candidates
      ensures Blind(k, e.1 + step.anyValue, p)
    {
      assert e.1 + step.anyValue == WithValue(k, candidates, p, e.0);
      ValueBranch(k, candidates, p, e.0);
      BranchIsSmaller(k, candidates, p, e.0);
    }
  }

  /** All that are left have a byte there, and none is known to have another. */
  lemma ValueBranch(k: Known, candidates: Candidates, p: nat, v: byte)
    requires k.Valid() && WellPlaced(k) && candidates <= k.All()
    ensures var left := WithValue(k, candidates, p, v);
            k.FixedAt(p) * left <= k.FixedWith(p, v) && k.OutOfBounds(p) * left == {} && Blind(k, left, p)
  {
    var left := WithValue(k, candidates, p, v);
    KnownHaveByte(k, p);
    assert k.AnyAt(p) == k.WithByteAt(p) - k.FixedAt(p);
    forall i | i in left
      ensures i in k.WithByteAt(p) && (i in k.FixedAt(p) ==> i in k.FixedWith(p, v))
    {
      if i in k.FixedWith(p, v) {
        assert i in k.FixedAt(p);
      }
    }
    OneValueIsBlind(k, left, p, v);
  }

  lemma BranchIsSmaller(k: Known, candidates: Candidates, p: nat, v: byte)
    requires k.Valid() && WellPlaced(k) && candidates <= k.All()
    requires ByteEliminates(k, candidates, p, 1) && k.FixedWith(p, v) * candidates != {}
    ensures WithValue(k, candidates, p, v) < candidates
  {
    ValueBranch(k, candidates, p, v);
    var left := WithValue(k, candidates, p, v);
    if left == candidates {
      assert k.FixedAt(p) * candidates <= k.FixedWith(p, v) * candidates;
      SmallerCount(k.FixedAt(p) * candidates, k.FixedWith(p, v) * candidates);
      assert false;
    }
  }

  /** A byte that eliminates all but one leaves no branch with more, whatever known byte is found. */
  lemma PerfectBranch(k: Known, candidates: Candidates, p: nat, v: byte)
    requires k.Valid() && WellPlaced(k) && candidates <= k.All()
    requires ByteEliminates(k, candidates, p, |candidates| - 1) && k.FixedWith(p, v) * candidates != {}
    ensures |WithValue(k, candidates, p, v)| <= 1
  {
    var known, short, any := k.FixedAt(p) * candidates, k.OutOfBounds(p) * candidates, k.AnyAt(p) * candidates;
    var group := k.FixedWith(p, v) * candidates;
    Parts(k, candidates, p, v);
    AllButOne(candidates, known, short, any, group);
  }

  lemma Parts(k: Known, candidates: Candidates, p: nat, v: byte)
    requires k.Valid() && WellPlaced(k) && candidates <= k.All()
    ensures var known, short, any := k.FixedAt(p) * candidates, k.OutOfBounds(p) * candidates, k.AnyAt(p) * candidates;
            && known !! short && known !! any && short !! any && known + short + any <= candidates
            && k.FixedWith(p, v) * candidates <= known
            && WithValue(k, candidates, p, v) == k.FixedWith(p, v) * candidates + any
  {
    KnownHaveByte(k, p);
    assert k.AnyAt(p) == k.WithByteAt(p) - k.FixedAt(p);
    assert k.FixedWith(p, v) <= k.FixedAt(p);
  }

  lemma AllButOne(candidates: Candidates, known: Candidates, short: Candidates, any: Candidates, group: Candidates)
    requires known + short + any <= candidates && known !! short && known !! any && short !! any && group <= known
    requires |candidates| - 1 <= |known| - |group| + |short|
    ensures |group + any| <= 1
  {
    SmallerCount(known + short + any, candidates);
    assert |known + short + any| == |known + short| + |any| && |known + short| == |known| + |short|;
    assert |group + any| == |group| + |any|;
  }

  /** narrowedBounds, as far as the candidates in `seen` go. */
  ghost predicate Overlaps(k: Known, candidates: Candidates, seen: set<nat>, narrowedBounds: Steps)
    requires seen <= k.All()
  {
    && (forall e <- narrowedBounds ::
          exists i {:trigger Overlap(k, candidates, i)} | i in seen :: e == (k.bounds[i].lower, Overlap(k, candidates, i)))
    && (forall i {:trigger Overlap(k, candidates, i)} | i in seen ::
          (k.bounds[i].lower, Overlap(k, candidates, i)) in narrowedBounds)
  }

  /** How many candidates a look at the size is sure to eliminate, and what it leaves. */
  ghost predicate Sizes(k: Known, candidates: Candidates, sizePower: int, narrowedBounds: Steps) {
    && candidates <= k.All() && Overlaps(k, candidates, candidates, narrowedBounds)
    && forall n :: SizeEliminates(k, candidates, n) <==> n <= sizePower
  }

  /** Candidates that the size need not tell apart share a size. */
  lemma SharedSize(k: Known, candidates: Candidates)
    requires !SizeEliminates(k, candidates, 1) && candidates <= k.All()
    ensures exists x: nat :: candidates <= k.WithSize(x)
  {
    var i :| i in candidates && |candidates| - |Overlap(k, candidates, i)| < 1;
    var fitting := k.WithSize(k.bounds[i].lower);
    SmallerCount(fitting * candidates, candidates);
    assert candidates <= fitting;
  }

  // ---- candidates that nothing tells apart ------------------------------------------------

  /** At every position the step for it is still there, or the position tells no candidates apart. */
  ghost predicate Covered(k: Known, candidates: Candidates, steps: seq<ByteStep>)
    requires k.Valid()
  {
    forall p: nat :: Blind(k, candidates, p) || exists step <- steps :: step.bytePos == p
  }

  lemma CoveredForFewer(k: Known, candidates: Candidates, fewer: Candidates, steps: seq<ByteStep>)
    requires k.Valid() && Covered(k, candidates, steps) && fewer <= candidates
    ensures Covered(k, fewer, steps)
  {
    forall p: nat
      ensures Blind(k, fewer, p) || exists step <- steps :: step.bytePos == p
    {
      assert Blind(k, candidates, p) ==> Blind(k, fewer, p);
    }
  }

  /** In the branch of a byte value the step itself is not needed any more. */
  lemma CoveredByRest(k: Known, candidates: Candidates, branch: Candidates, steps: seq<ByteStep>)
    requires k.Valid() && Covered(k, candidates, steps) && branch <= candidates
    requires |steps| > 0 && Blind(k, branch, steps[0].bytePos)
    ensures Covered(k, branch, steps[1..])
  {
    CoveredForFewer(k, candidates, branch, steps);
    forall p: nat
      ensures Blind(k, branch, p) || exists step <- steps[1..] :: step.bytePos == p
    {
      if !Blind(k, branch, p) {
        var step :| step in steps && step.bytePos == p;
        assert step in steps[1..];
      }
    }
  }

  /** More than one candidate, with a size in common and no known byte to tell any two of them apart. */
  ghost predicate Alike(k: Known, candidates: Candidates)
    requires k.Valid()
  {
    && candidates <= k.All() && |candidates| > 1
    && (exists x: nat :: candidates <= k.WithSize(x))
    && forall p: nat :: Blind(k, candidates, p)
  }

  ghost predicate SomeAlike(k: Known)
    requires k.Valid()
  {
    exists candidates :: Alike(k, candidates)
  }

  /** Where neither the size nor any byte eliminates anything, nothing tells the candidates apart. */
  lemma NothingOffered(k: Known, candidates: Candidates)
    requires k.Valid() && WellPlaced(k) && candidates <= k.All() && |candidates| > 1
    requires !SizeEliminates(k, candidates, 1) && Covered(k, candidates, [])
    ensures SomeAlike(k)
  {
    SharedSize(k, candidates);
    forall p: nat
      ensures Blind(k, candidates, p)
    {
      var none: seq<ByteStep> := [];
      assert !exists step <- none :: step.bytePos == p;
    }
    assert Alike(k, candidates);
  }

  // ---- building ---------------------------------------------------------------------------

  ghost predicate SizesKnown(k: Known, ascendingBounds: Steps) {
    && Ascending(ascendingBounds)
    && (forall x: nat {:trigger ValueAt(ascendingBounds, {}, x)} :: ValueAt(ascendingBounds, {}, x) == k.WithSize(x))
    && (forall b <- k.bounds :: b.lower in KeysOf(ascendingBounds))
  }

  ghost predicate StrategiesSound(k: Known, strategies: map<Candidates, Strategy>)
    requires k.Valid()
  {
    forall c <- strategies :: c <= k.All() && Sound(k, c, strategies[c])
  }

  predicate ListedUnder(candidatesBySize: map<nat, seq<Candidates>>, size: nat, c: Candidates) {
    size in candidatesBySize && c in candidatesBySize[size]
  }

  /** candidatesBySize lists the keys of strategies by their number of candidates. */
  ghost predicate Listed(strategies: map<Candidates, Strategy>, candidatesBySize: map<nat, seq<Candidates>>) {
    forall size, c {:trigger ListedUnder(candidatesBySize, size, c)} ::
      ListedUnder(candidatesBySize, size, c) <==> c in strategies && |c| == size
  }

  function AddBySize(candidatesBySize: map<nat, seq<Candidates>>, candidates: Candidates): map<nat, seq<Candidates>> {
    var size := |candidates|;
    candidatesBySize[size := (if size in candidatesBySize then candidatesBySize[size] else []) + [candidates]]
  }

  lemma ListOneMore(strategies: map<Candidates, Strategy>, candidatesBySize: map<nat, seq<Candidates>>,
                    candidates: Candidates, strategy: Strategy)
    requires Listed(strategies, candidatesBySize)
    ensures Listed(strategies[candidates := strategy], AddBySize(candidatesBySize, candidates))
  {
    var after := AddBySize(candidatesBySize, candidates);
    forall size, c
      ensures ListedUnder(after, size, c) <==> c in strategies[candidates := strategy] && |c| == size
    {
      assert ListedUnder(candidatesBySize, size, c) <==> c in strategies && |c| == size;
      if size == |candidates| {
        var others := if size in candidatesBySize then candidatesBySize[size] else [];
        assert c in after[size] <==> c in others || c == candidates;
      }
    }
  }

  /** The elements of `candidates`, in ascending order. */
  function ToArray(candidates: Candidates, n: nat): (r: seq<nat>)
    ensures forall i: nat :: i in r <==> i in candidates && i < n
  {
    if n == 0 then [] else ToArray(candidates, n - 1) + if n - 1 in candidates then [n - 1] else []
  }

  ghost function Elements(s: seq<nat>): set<nat> {
    set i | i in s
  }

  lemma {:induction false} PutElements(steps: Steps, key: nat, value: Candidates)
    ensures (key, value) in Put(steps, key, value)
    ensures forall e <- Put(steps, key, value) :: e in steps || e == (key, value)
    ensures forall e <- steps :: e.0 != key ==> e in Put(steps, key, value)
  {
    if |steps| > 0 && steps[0].0 != key {
      PutElements(steps[1..], key, value);
      forall e | e in steps && e.0 != key
        ensures e in Put(steps, key, value)
      {
        assert e == steps[0] || e in steps[1..];
      }
    }
  }

  lemma OverlapNext(k: Known, candidates: Candidates, seen: set<nat>, i: nat, narrowedBounds: Steps)
    requires i < |k.bounds| && seen <= k.All() && Overlaps(k, candidates, seen, narrowedBounds)
    ensures Overlaps(k, candidates, seen + {i}, Put(narrowedBounds, k.bounds[i].lower, Overlap(k, candidates, i)))
  {
    var lower, overlap := k.bounds[i].lower, Overlap(k, candidates, i);
    var after := Put(narrowedBounds, lower, overlap);
    PutElements(narrowedBounds, lower, overlap);
    forall j | j in seen
      ensures (k.bounds[j].lower, Overlap(k, candidates, j)) in after
    {
      assert (k.bounds[j].lower, Overlap(k, candidates, j)) in narrowedBounds;
    }
    forall e | e in after
      ensures exists j {:trigger Overlap(k, candidates, j)} | j in seen + {i} :: e == (k.bounds[j].lower, Overlap(k, candidates, j))
    {
      if e in narrowedBounds {
        var j :| j in seen && e == (k.bounds[j].lower, Overlap(k, candidates, j));
        assert j in seen + {i};
      } else {
        assert i in seen + {i};
      }
    }
  }

  /** The largest number of candidates in it. */
  ghost predicate MostOverlap(k: Known, candidates: Candidates, seen: set<nat>, most: nat)
    requires seen <= k.All()
  {
    && (forall i {:trigger Overlap(k, candidates, i)} | i in seen :: |Overlap(k, candidates, i)| <= most)
    && (most == 0 || exists i <- seen :: |Overlap(k, candidates, i)| == most)
  }

  lemma MostOverlapNext(k: Known, candidates: Candidates, seen: set<nat>, i: nat, most: nat)
    requires i < |k.bounds| && seen <= k.All() && MostOverlap(k, candidates, seen, most)
    ensures var size := |Overlap(k, candidates, i)|;
            MostOverlap(k, candidates, seen + {i}, if size > most then size else most)
  {
    if |Overlap(k, candidates, i)| <= most && most > 0 {
      var j :| j in seen && |Overlap(k, candidates, j)| == most;
      assert j in seen + {i};
    }
  }

  /** The state of the loop over the candidates. */
  ghost predicate SizesSoFar(k: Known, candidates: Candidates, seen: seq<nat>, most: nat, narrowedBounds: Steps) {
    && Elements(seen) <= k.All()
    && Overlaps(k, candidates, Elements(seen), narrowedBounds) && MostOverlap(k, candidates, Elements(seen), most)
  }

  lemma SizesNext(k: Known, candidates: Candidates, seen: seq<nat>, i: nat, most: nat, narrowedBounds: Steps)
    requires i < |k.bounds| && SizesSoFar(k, candidates, seen, most, narrowedBounds)
    ensures var overlap := Overlap(k, candidates, i);
            SizesSoFar(k, candidates, seen + [i], if |overlap| > most then |overlap| else most,
                       Put(narrowedBounds, k.bounds[i].lower, overlap))
  {
    assert Elements(seen + [i]) == Elements(seen) + {i};
    OverlapNext(k, candidates, Elements(seen), i, narrowedBounds);
    MostOverlapNext(k, candidates, Elements(seen), i, most);
  }

  lemma MostEliminates(k: Known, candidates: Candidates, most: nat)
    requires candidates != {} && candidates <= k.All() && MostOverlap(k, candidates, candidates, most)
    ensures forall n :: SizeEliminates(k, candidates, n) <==> n <= |candidates| - most
  {
    var some :| some in candidates;
    var i :| i in candidates && (most == 0 || |Overlap(k, candidates, i)| == most);
    forall n
      ensures SizeEliminates(k, candidates, n) <==> n <= |candidates| - most
    {
      assert SizeEliminates(k, candidates, n) ==> n <= |candidates| - |Overlap(k, candidates, i)|;
    }
  }

  const DESCENDING_POWER := (step: ByteStep) => -step.power

  /** The largest power comes first. */
  lemma LargestFirst(steps: seq<ByteStep>)
    ensures var sorted := SortByKey(steps, DESCENDING_POWER);
            && (forall step :: step in sorted <==> step in steps)
            && forall step <- steps :: step.power <= sorted[0].power
  {
    var sorted := SortByKey(steps, DESCENDING_POWER);
    SortSorts(steps, DESCENDING_POWER);
    SortKeepsElements(steps, DESCENDING_POWER);
    forall step | step in steps
      ensures step.power <= sorted[0].power
    {
      var j :| 0 <= j < |sorted| && sorted[j] == step;
      assert j > 0 ==> DESCENDING_POWER(sorted[0]) <= DESCENDING_POWER(sorted[j]);
    }
  }

  /** What the narrowed steps keep of the steps: each that eliminates something, with the power it has here. */
  ghost predicate NarrowedWell(k: Known, candidates: Candidates, steps: seq<ByteStep>, narrowed: seq<ByteStep>)
    requires k.Valid()
  {
    && (forall s <- narrowed :: ByteEliminates(k, candidates, s.bytePos, s.power))
    && (forall step <- steps, n: int | 0 < n <= step.power && ByteEliminates(k, candidates, step.bytePos, n) ::
          exists s <- narrowed :: s.bytePos == step.bytePos && n <= s.power)
  }

  lemma NarrowedOneMore(k: Known, candidates: Candidates, steps: seq<ByteStep>, step: ByteStep,
                        narrowed: seq<ByteStep>, step': ByteStep)
    requires k.Valid() && NarrowedWell(k, candidates, steps, narrowed) && step'.bytePos == step.bytePos && step'.power >= 0
    requires forall n | n > 0 :: n <= step'.power <==> n <= step.power && ByteEliminates(k, candidates, step.bytePos, n)
    ensures step'.power > 0 ==> ByteEliminates(k, candidates, step.bytePos, step'.power)
    ensures NarrowedWell(k, candidates, steps + [step], if step'.power == 0 then narrowed else narrowed + [step'])
  {
    var after := if step'.power == 0 then narrowed else narrowed + [step'];
    forall s, n: int | s in steps + [step] && 0 < n <= s.power && ByteEliminates(k, candidates, s.bytePos, n)
      ensures exists t <- after :: t.bytePos == s.bytePos && n <= t.power
    {
      if s in steps {
        var t :| t in narrowed && t.bytePos == s.bytePos && n <= t.power;
        assert t in after;
      } else {
        assert step' in after;
      }
    }
  }

  /** The narrowed steps still cover all positions. */
  lemma NarrowedCover(k: Known, candidates: Candidates, steps: seq<ByteStep>, narrowed: seq<ByteStep>)
    requires k.Valid() && WellPlaced(k) && candidates <= k.All()
    requires AllUsable(k, candidates, steps) && Covered(k, candidates, steps) && NarrowedWell(k, candidates, steps, narrowed)
    ensures Covered(k, candidates, narrowed)
  {
    forall p: nat
      ensures Blind(k, candidates, p) || exists s <- narrowed :: s.bytePos == p
    {
      if !Blind(k, candidates, p) {
        var step :| step in steps && step.bytePos == p;
        assert Usable(k, candidates, step);
        if !ByteEliminates(k, candidates, p, 1) {
          EliminatesOrBlind(k, candidates, p);
        }
      }
    }
  }

  // ---- what is filed ----------------------------------------------------------------------

  /** `s` is the strategy for these candidates: filed under them, or the first one and they are all. */
  ghost predicate MadeFor(k: Known, first: Strategy, strategies: map<Candidates, Strategy>, candidates: Candidates, s: Strategy) {
    (candidates == k.All() && s == first) || (candidates in strategies && s == strategies[candidates])
  }

  lemma BranchHasParent(k: Known, first: Strategy, strategies: map<Candidates, Strategy>, made: Candidates, s: Strategy,
                        left: Candidates)
    requires k.Valid() && MadeFor(k, first, strategies, made, s) && Branch(k, made, s, left) && left < made
    ensures HasParent(k, first, strategies, left)
  {
  }

  /** AddStrategy, on the strategies alone. */
  ghost function Added(wasFirst: bool, strategies: map<Candidates, Strategy>, candidates: Candidates, s: Strategy)
    : map<Candidates, Strategy>
  {
    if wasFirst then strategies else strategies[candidates := s]
  }

  lemma NothingFiled(k: Known, first: Strategy, strategies: map<Candidates, Strategy>)
    requires k.Valid()
    ensures FiledWell(k, first, strategies, strategies)
  {
  }

  lemma GrowsTwice(wasFirst: bool, before: map<Candidates, Strategy>, candidates: Candidates, s: Strategy, after: map<Candidates, Strategy>)
    requires candidates !in before && Grows(Added(wasFirst, before, candidates, s), after)
    ensures Grows(before, after) && (!wasFirst ==> candidates in after && after[candidates] == s)
  {
    if !wasFirst {
      assert candidates in before[candidates := s];
    }
  }

  /** A strategy was added, as the first or filed, and then its branches were built. */
  lemma BranchesBuilt(k: Known, wasFirst: bool, first: Strategy, before: map<Candidates, Strategy>,
                      after: map<Candidates, Strategy>, candidates: Candidates, s: Strategy)
    requires k.Valid() && |candidates| > 1 && candidates !in before && (wasFirst ==> first == s)
    requires !wasFirst ==> HasParent(k, first, before, candidates)
    requires FiledWell(k, first, Added(wasFirst, before, candidates, s), after)
    requires Splits(k, candidates, s) && Complete(k, after, candidates, s)
    ensures FiledWell(k, first, before, after)
  {
    if !wasFirst {
      FiledFirst(k, first, before, after, candidates, s);
    }
  }

  /** Every layout has its smallest size, so no answer is sure to eliminate all candidates. */
  lemma SizeLeavesOne(k: Known, candidates: Candidates, n: int)
    requires k.Valid() && candidates <= k.All() && candidates != {} && SizeEliminates(k, candidates, n)
    ensures n <= |candidates| - 1
  {
    var i :| i in candidates;
    assert k.bounds[i] in k.bounds;
    assert i in Overlap(k, candidates, i);
    NonEmptyCount(Overlap(k, candidates, i));
  }

  lemma ByteLeavesOne(k: Known, candidates: Candidates, p: nat, n: int)
    requires k.Valid() && WellPlaced(k) && candidates <= k.All() && ByteEliminates(k, candidates, p, n)
    ensures n <= |candidates| - 1
  {
    var i :| i in k.FixedAt(p) * candidates;
    var v := ValuesAt(k.fixed[i], p)[0];
    assert i in k.FixedWith(p, v) * candidates;
    Parts(k, candidates, p, v);
    var known, short := k.FixedAt(p) * candidates, k.OutOfBounds(p) * candidates;
    SmallerCount(known + short, candidates);
    assert |known + short| == |known| + |short|;
    NonEmptyCount(k.FixedWith(p, v) * candidates);
  }

  lemma OfferLeavesOne(k: Known, candidates: Candidates, steps: seq<ByteStep>, n: int)
    requires k.Valid() && WellPlaced(k) && candidates <= k.All() && candidates != {} && Offered(k, candidates, steps, n)
    ensures n <= |candidates| - 1
  {
    if SizeEliminates(k, candidates, n) {
      SizeLeavesOne(k, candidates, n);
    } else {
      var step :| step in steps && ByteEliminates(k, candidates, step.bytePos, n);
      ByteLeavesOne(k, candidates, step.bytePos, n);
    }
  }

  /** A strategy that eliminates all but one is as good as any, and leads to nothing more. */
  lemma PerfectStrategy(k: Known, candidates: Candidates, steps: seq<ByteStep>, s: Strategy,
                        strategies: map<Candidates, Strategy>)
    requires k.Valid() && WellPlaced(k) && candidates <= k.All() && |candidates| > 1 && Sound(k, candidates, s)
    requires s != Indistinguishable && Eliminates(k, candidates, s, |candidates| - 1)
    ensures Greedy(k, candidates, steps, s) && Splits(k, candidates, s) && Complete(k, strategies, candidates, s)
  {
    forall n | n > 0 && Offered(k, candidates, steps, n)
      ensures Eliminates(k, candidates, s, n)
    {
      OfferLeavesOne(k, candidates, steps, n);
    }
    if s.ByByte? {
      forall e | e in s.distinct
        ensures |WithValue(k, candidates, s.bytePos, e.0)| <= 1
      {
        PerfectBranch(k, candidates, s.bytePos, e.0);
      }
    }
  }

  /** What is best among the narrowed steps and the size is best among all there were. */
  lemma BestIsGreedy(k: Known, candidates: Candidates, steps: seq<ByteStep>, narrowed: seq<ByteStep>, sorted: seq<ByteStep>,
                     sizePower: int, s: Strategy)
    requires k.Valid() && NarrowedWell(k, candidates, steps, narrowed)
    requires forall n :: SizeEliminates(k, candidates, n) <==> n <= sizePower
    requires forall step <- narrowed :: |sorted| > 0 && step.power <= sorted[0].power
    requires Best(k, candidates, sorted, sizePower, s)
    ensures Greedy(k, candidates, steps, s)
  {
    forall n | n > 0 && Offered(k, candidates, steps, n)
      ensures Eliminates(k, candidates, s, n)
    {
      if !SizeEliminates(k, candidates, n) {
        var step :| step in steps && n <= step.power && ByteEliminates(k, candidates, step.bytePos, n);
        var t :| t in narrowed && t.bytePos == step.bytePos && n <= t.power;
      }
    }
  }

  lemma CoveredSorted(k: Known, candidates: Candidates, steps: seq<ByteStep>, sorted: seq<ByteStep>)
    requires k.Valid() && Covered(k, candidates, steps) && forall step :: step in sorted <==> step in steps
    ensures Covered(k, candidates, sorted)
  {
    forall p: nat
      ensures Blind(k, candidates, p) || exists step <- sorted :: step.bytePos == p
    {
      if !Blind(k, candidates, p) {
        var step :| step in steps && step.bytePos == p;
        assert step in sorted;
      }
    }
  }

  lemma OverlapShrinks(k: Known, candidates: Candidates, narrowedBounds: Steps, e: (nat, Candidates))
    requires candidates <= k.All() && Overlaps(k, candidates, candidates, narrowedBounds) && e in narrowedBounds
    ensures exists i {:trigger Overlap(k, candidates, i)} | i in candidates && i < |k.bounds| :: e.1 == Overlap(k, candidates, i)
    ensures e.1 <= candidates && (SizeEliminates(k, candidates, 1) ==> e.1 < candidates)
  {
    var i :| i in candidates && e == (k.bounds[i].lower, Overlap(k, candidates, i));
    OneOverlapShrinks(k, candidates, i);
  }

  lemma FewerIsSmaller(a: Candidates, b: Candidates)
    requires a <= b && |a| < |b|
    ensures a < b
  {
    assert a != b;
  }

  lemma OneOverlapShrinks(k: Known, candidates: Candidates, i: nat)
    requires i < |k.bounds| && i in candidates
    ensures Overlap(k, candidates, i) <= candidates
    ensures SizeEliminates(k, candidates, 1) ==> Overlap(k, candidates, i) < candidates
  {
    if SizeEliminates(k, candidates, 1) {
      FewerIsSmaller(Overlap(k, candidates, i), candidates);
    }
  }

  function ByteStrategy(step: ByteStep): Strategy {
    ByByte(step.bytePos, step.outOfBounds, step.distinct)
  }

  function ValueBranches(step: ByteStep): (r: seq<Candidates>)
    ensures |r| == |step.distinct|
  {
    seq(|step.distinct|, j requires 0 <= j < |step.distinct| => step.distinct[j].1 + step.anyValue)
  }

  ghost predicate AllEliminate(k: Known, candidates: Candidates, steps: seq<ByteStep>)
    requires k.Valid()
  {
    forall step <- steps :: ByteEliminates(k, candidates, step.bytePos, step.power)
  }

  /** As good as the size and as the best of the sorted steps, and different from them only if these are worth nothing. */
  ghost predicate Best(k: Known, candidates: Candidates, sorted: seq<ByteStep>, sizePower: int, s: Strategy)
    requires k.Valid()
  {
    && Splits(k, candidates, s)
    && forall n | 0 < n && (n <= sizePower || (|sorted| > 0 && n <= sorted[0].power)) :: Eliminates(k, candidates, s, n)
  }

  lemma BestOf(k: Known, candidates: Candidates, sorted: seq<ByteStep>, sizePower: int, s: Strategy)
    requires k.Valid() && AllNarrow(k, candidates, sorted) && AllEliminate(k, candidates, sorted)
    requires forall n :: SizeEliminates(k, candidates, n) <==> n <= sizePower
    requires s == if |sorted| > 0 && sorted[0].power >= sizePower then ByteStrategy(sorted[0])
                  else if sizePower > 0 then BySize else Indistinguishable
    ensures Best(k, candidates, sorted, sizePower, s)
  {
    if |sorted| > 0 {
      assert sorted[0] in sorted;
      assert Narrow(k, candidates, sorted[0]) && ByteEliminates(k, candidates, sorted[0].bytePos, sorted[0].power);
    }
  }

  /** If something is worth anything it eliminates one; if not, nothing tells the candidates apart. */
  lemma BestLeads(k: Known, candidates: Candidates, sorted: seq<ByteStep>, sizePower: int)
    requires k.Valid() && WellPlaced(k) && candidates <= k.All() && |candidates| > 1
    requires AllNarrow(k, candidates, sorted) && AllEliminate(k, candidates, sorted) && Covered(k, candidates, sorted)
    requires forall n :: SizeEliminates(k, candidates, n) <==> n <= sizePower
    ensures |sorted| > 0 ==> sorted[0].power > 0 && ByteEliminates(k, candidates, sorted[0].bytePos, 1)
    ensures |sorted| == 0 && sizePower <= 0 ==> SomeAlike(k)
  {
    if |sorted| > 0 {
      assert sorted[0] in sorted;
      assert Narrow(k, candidates, sorted[0]) && ByteEliminates(k, candidates, sorted[0].bytePos, sorted[0].power);
    } else if sizePower <= 0 {
      NothingOffered(k, candidates);
    }
  }

  /** What a recursive call for a branch needs. */
  ghost predicate Buildable(k: Known, made: Candidates, s: Strategy, branch: Candidates, steps: seq<ByteStep>)
    requires k.Valid()
  {
    && branch <= made && AllUsable(k, branch, steps)
    && (WellPlaced(k) ==> branch < made && Branch(k, made, s, branch) && Covered(k, branch, steps))
  }

  ghost predicate AllBuildable(k: Known, made: Candidates, s: Strategy, branches: seq<Candidates>, steps: seq<ByteStep>)
    requires k.Valid()
  {
    forall b <- branches :: Buildable(k, made, s, b, steps)
  }

  ghost predicate BuiltSoFar(k: Known, first: Strategy, before: map<Candidates, Strategy>, after: map<Candidates, Strategy>,
                             made: Candidates, branches: seq<Candidates>)
    requires k.Valid()
  {
    FiledWell(k, first, before, after) && forall b <- branches :: Settled(after, made, b)
  }

  lemma NothingBuilt(k: Known, first: Strategy, before: map<Candidates, Strategy>, made: Candidates)
    requires k.Valid()
    ensures BuiltSoFar(k, first, before, before, made, [])
  {
    NothingFiled(k, first, before);
  }

  lemma BuiltMore(k: Known, first: Strategy, before: map<Candidates, Strategy>, between: map<Candidates, Strategy>,
                  after: map<Candidates, Strategy>, made: Candidates, done: seq<Candidates>, b: Candidates)
    requires k.Valid() && BuiltSoFar(k, first, before, between, made, done)
    requires FiledWell(k, first, between, after) && Settled(after, made, b)
    ensures BuiltSoFar(k, first, before, after, made, done + [b])
  {
    FiledWellLater(k, first, before, between, after);
    forall c | c in done + [b]
      ensures Settled(after, made, c)
    {
      if c != b {
        SettledLater(between, after, made, c);
      }
    }
  }

  lemma MadeForLater(k: Known, first: Strategy, before: map<Candidates, Strategy>, after: map<Candidates, Strategy>,
                     candidates: Candidates, s: Strategy)
    requires Grows(before, after) && MadeFor(k, first, before, candidates, s)
    ensures MadeFor(k, first, after, candidates, s)
  {
  }

  lemma ByteBranchesBuildable(k: Known, candidates: Candidates, sorted: seq<ByteStep>)
    requires k.Valid() && candidates <= k.All() && |sorted| > 0 && AllNarrow(k, candidates, sorted)
    requires WellPlaced(k) ==> Covered(k, candidates, sorted) && ByteEliminates(k, candidates, sorted[0].bytePos, 1)
    ensures var s := ByteStrategy(sorted[0]);
            && Buildable(k, candidates, s, sorted[0].outOfBounds, sorted)
            && AllBuildable(k, candidates, s, ValueBranches(sorted[0]), sorted[1..])
  {
    var best := sorted[0];
    assert best in sorted;
    NarrowIsUsable(k, candidates, sorted);
    AllUsableForFewer(k, candidates, best.outOfBounds, sorted);
    if WellPlaced(k) {
      ByteBranchesShrink(k, candidates, best);
      CoveredForFewer(k, candidates, best.outOfBounds, sorted);
    }
    forall b | b in ValueBranches(best)
      ensures Buildable(k, candidates, ByteStrategy(best), b, sorted[1..])
    {
      var j :| 0 <= j < |best.distinct| && b == ValueBranches(best)[j];
      ValueBranchBuildable(k, candidates, sorted, best.distinct[j]);
    }
  }

  lemma ValueBranchBuildable(k: Known, candidates: Candidates, sorted: seq<ByteStep>, e: (byte, Candidates))
    requires k.Valid() && candidates <= k.All() && |sorted| > 0 && AllNarrow(k, candidates, sorted)
    requires AllUsable(k, candidates, sorted) && e in sorted[0].distinct
    requires WellPlaced(k) ==> Covered(k, candidates, sorted) && ByteEliminates(k, candidates, sorted[0].bytePos, 1)
    ensures Buildable(k, candidates, ByteStrategy(sorted[0]), e.1 + sorted[0].anyValue, sorted[1..])
  {
    var best, branch := sorted[0], e.1 + sorted[0].anyValue;
    assert best in sorted;
    assert AllUsable(k, candidates, sorted[1..]);
    AllUsableForFewer(k, candidates, branch, sorted[1..]);
    if WellPlaced(k) {
      ByteBranchesShrink(k, candidates, best);
      CoveredByRest(k, candidates, branch, sorted);
    }
  }

  lemma ByteBranchesSettled(k: Known, candidates: Candidates, best: ByteStep, strategies: map<Candidates, Strategy>)
    requires k.Valid() && WellPlaced(k) && candidates <= k.All() && Narrow(k, candidates, best)
    requires Settled(strategies, candidates, best.outOfBounds)
    requires forall b <- ValueBranches(best) :: Settled(strategies, candidates, b)
    requires ByteEliminates(k, candidates, best.bytePos, 1)
    ensures Complete(k, strategies, candidates, ByteStrategy(best))
  {
    forall e | e in best.distinct
      ensures Settled(strategies, candidates, WithValue(k, candidates, best.bytePos, e.0))
    {
      ValueBranchIs(k, candidates, best, e);
      assert e.1 + best.anyValue in ValueBranches(best);
    }
  }

  lemma ValueBranchIs(k: Known, candidates: Candidates, best: ByteStep, e: (byte, Candidates))
    requires k.Valid() && Narrow(k, candidates, best) && e in best.distinct
    ensures e.1 + best.anyValue == WithValue(k, candidates, best.bytePos, e.0)
    ensures e.1 + best.anyValue in ValueBranches(best)
  {
    var j :| 0 <= j < |best.distinct| && best.distinct[j] == e;
    assert ValueBranches(best)[j] == e.1 + best.anyValue;
  }

  lemma SizeBranchesBuildable(k: Known, candidates: Candidates, narrowedBounds: Steps, sorted: seq<ByteStep>, branches: seq<Candidates>)
    requires k.Valid() && candidates <= k.All() && Overlaps(k, candidates, candidates, narrowedBounds)
    requires AllNarrow(k, candidates, sorted)
    requires |branches| == |narrowedBounds| && forall j | 0 <= j < |branches| :: branches[j] == narrowedBounds[j].1
    requires WellPlaced(k) ==> Covered(k, candidates, sorted) && SizeEliminates(k, candidates, 1)
    ensures AllBuildable(k, candidates, BySize, branches, sorted)
  {
    NarrowIsUsable(k, candidates, sorted);
    forall b | b in branches
      ensures Buildable(k, candidates, BySize, b, sorted)
    {
      var j :| 0 <= j < |branches| && branches[j] == b;
      OverlapShrinks(k, candidates, narrowedBounds, narrowedBounds[j]);
      AllUsableForFewer(k, candidates, b, sorted);
      if WellPlaced(k) {
        CoveredForFewer(k, candidates, b, sorted);
      }
    }
  }

  lemma SizesSettled(k: Known, candidates: Candidates, narrowedBounds: Steps, branches: seq<Candidates>,
                     strategies: map<Candidates, Strategy>)
    requires k.Valid() && candidates <= k.All() && Overlaps(k, candidates, candidates, narrowedBounds)
    requires |branches| == |narrowedBounds| && forall j | 0 <= j < |branches| :: branches[j] == narrowedBounds[j].1
    requires forall b <- branches :: Settled(strategies, candidates, b)
    ensures Complete(k, strategies, candidates, BySize)
  {
    forall i | i in candidates
      ensures Settled(strategies, candidates, Overlap(k, candidates, i))
    {
      var e := (k.bounds[i].lower, Overlap(k, candidates, i));
      var j :| 0 <= j < |narrowedBounds| && narrowedBounds[j] == e;
      assert branches[j] in branches;
    }
  }

  /** recursivelyBuildStrategy and the variables it shares with its closures. */
  class StrategyBuilder {
    const k: Known
    const ascendingBounds: Steps
    var distinguishable: bool
    var firstStrategy: Option<Strategy>
    var strategies: map<Candidates, Strategy>
    var candidatesBySize: map<nat, seq<Candidates>>

    constructor (k: Known, ascendingBounds: Steps)
      requires k.Valid() && SizesKnown(k, ascendingBounds)
      ensures Valid() && this.k == k && this.ascendingBounds == ascendingBounds
      ensures firstStrategy.None? && strategies == map[]
    {
      this.k, this.ascendingBounds := k, ascendingBounds;
      distinguishable, firstStrategy, strategies, candidatesBySize := true, None, map[], map[];
    }

    ghost predicate Valid()
      reads this
    {
      && k.Valid() && SizesKnown(k, ascendingBounds)
      && (firstStrategy.Some? ==> Sound(k, k.All(), firstStrategy.value))
      && (firstStrategy.None? ==> strategies == map[])
      && StrategiesSound(k, strategies) && Listed(strategies, candidatesBySize)
      && (distinguishable ==>
            && (firstStrategy.Some? ==> firstStrategy.value != Indistinguishable)
            && forall c <- strategies :: strategies[c] != Indistinguishable)
      && (!distinguishable && WellPlaced(k) ==> SomeAlike(k))
    }

    ghost function Subsets(): set<Candidates> {
      set c | c <= k.All()
    }

    /** How many more strategies can be added. */
    ghost function Missing(): nat
      reads this
    {
      |Subsets() - strategies.Keys| + if firstStrategy.None? then 1 else 0
    }

    method AddStrategy(candidates: Candidates, strategy: Strategy)
      requires Valid() && candidates <= k.All() && candidates !in strategies
      requires Sound(k, candidates, strategy) && (firstStrategy.None? ==> candidates == k.All())
      requires strategy == Indistinguishable ==> !distinguishable
      modifies this`firstStrategy, this`strategies, this`candidatesBySize
      ensures Valid() && firstStrategy.Some? && Missing() < old(Missing())
      ensures firstStrategy == if old(firstStrategy).None? then Some(strategy) else old(firstStrategy)
      ensures strategies == Added(old(firstStrategy).None?, old(strategies), candidates, strategy)
      ensures candidatesBySize ==
        if old(firstStrategy).None? then old(candidatesBySize) else AddBySize(old(candidatesBySize), candidates)
    {
      if firstStrategy.None? {
        SetFirstStrategy(strategy);
      } else {
        OneSubsetLess(candidates, strategy);
        FileStrategy(candidates, strategy);
      }
    }

    method SetFirstStrategy(strategy: Strategy)
      requires Valid() && firstStrategy.None? && Sound(k, k.All(), strategy)
      requires strategy == Indistinguishable ==> !distinguishable
      modifies this`firstStrategy
      ensures Valid() && firstStrategy == Some(strategy)
    {
      firstStrategy := Some(strategy);
    }

    /** Any strategy but the first is filed under its candidates, and these under their number. */
    method FileStrategy(candidates: Candidates, strategy: Strategy)
      requires Valid() && firstStrategy.Some? && candidates <= k.All() && candidates !in strategies
      requires Sound(k, candidates, strategy) && (strategy == Indistinguishable ==> !distinguishable)
      modifies this`strategies, this`candidatesBySize
      ensures Valid()
      ensures strategies == old(strategies)[candidates := strategy]
      ensures candidatesBySize == AddBySize(old(candidatesBySize), candidates)
    {
      ListOneMore(strategies, candidatesBySize, candidates, strategy);
      strategies := strategies[candidates := strategy];
      candidatesBySize := AddBySize(candidatesBySize, candidates);
    }

    /** The size part: how many candidates a look at the size is sure to eliminate, and what it leaves. */
    method NarrowSizes(candidates: Candidates) returns (sizePower: int, narrowedBounds: Steps)
      requires SizesKnown(k, ascendingBounds) && candidates <= k.All() && candidates != {}
      ensures Sizes(k, candidates, sizePower, narrowedBounds)
    {
      var most: nat, remaining := 0, ToArray(candidates, |k.bounds|);
      narrowedBounds := [];
      for j := 0 to |remaining|
        invariant SizesSoFar(k, candidates, remaining[..j], most, narrowedBounds)
      {
        var i := remaining[j];
        assert i in remaining && remaining[..j + 1] == remaining[..j] + [i];
        var overlap := OverlapOf(candidates, i);
        SizesNext(k, candidates, remaining[..j], i, most, narrowedBounds);
        most := if |overlap| > most then |overlap| else most;
        narrowedBounds := Put(narrowedBounds, k.bounds[i].lower, overlap);
      }
      assert remaining[..|remaining|] == remaining && Elements(remaining) == candidates;
      MostEliminates(k, candidates, most);
      sizePower := |candidates| - most;
    }

    /** The byte part: either a perfect byte strategy, or the narrowed bestBytes. */
    method NarrowBestBytes(candidates: Candidates, bestBytes: seq<ByteStep>)
      returns (perfect: Option<Strategy>, narrowed: seq<ByteStep>)
      requires k.Valid() && candidates <= k.All() && |candidates| > 1 && AllUsable(k, candidates, bestBytes)
      ensures perfect.Some? ==>
                perfect.value.ByByte? && Sound(k, candidates, perfect.value)
                && (WellPlaced(k) ==> ByteEliminates(k, candidates, perfect.value.bytePos, |candidates| - 1))
      ensures perfect.None? ==>
                && AllNarrow(k, candidates, narrowed) && |narrowed| <= |bestBytes|
                && (WellPlaced(k) ==> NarrowedWell(k, candidates, bestBytes, narrowed))
    {
      narrowed := [];
      for j := 0 to |bestBytes|
        invariant AllNarrow(k, candidates, narrowed) && |narrowed| <= j
        invariant WellPlaced(k) ==> NarrowedWell(k, candidates, bestBytes[..j], narrowed)
      {
        assert bestBytes[j] in bestBytes && bestBytes[..j + 1] == bestBytes[..j] + [bestBytes[j]];
        var step := NarrowStep(k, bestBytes[j], candidates);
        if WellPlaced(k) {
          NarrowedOneMore(k, candidates, bestBytes[..j], bestBytes[j], narrowed, step);
        }
        if step.power == 0 {
          continue;
        }
        if step.power == |candidates| - 1 {
          return Some(ByteStrategy(step)), narrowed;
        }
        narrowed := narrowed + [step];
      }
      assert bestBytes[..|bestBytes|] == bestBytes;
      return None, narrowed;
    }

    /** `ascendingBounds.get(lower)! & candidates` */
    function OverlapOf(candidates: Candidates, i: nat): (r: Candidates)
      requires SizesKnown(k, ascendingBounds) && i < |k.bounds|
      ensures r == Overlap(k, candidates, i)
    {
      assert k.bounds[i] in k.bounds;
      ValueOfKey(k.bounds[i].lower) * candidates
    }

    /** `ascendingBounds.get(lower)!` */
    function ValueOfKey(key: nat): (r: Candidates)
      requires SizesKnown(k, ascendingBounds) && key in KeysOf(ascendingBounds)
      ensures r == k.WithSize(key)
    {
      ghost var e :| e in ascendingBounds && e.0 == key;
      ghost var j :| 0 <= j < |ascendingBounds| && ascendingBounds[j] == e;
      GetIsValueAt(ascendingBounds, {}, j);
      Get(ascendingBounds, key).value
    }

    lemma OneSubsetLess(candidates: Candidates, strategy: Strategy)
      requires candidates <= k.All() && candidates !in strategies
      ensures |Subsets() - strategies[candidates := strategy].Keys| < |Subsets() - strategies.Keys|
    {
      assert candidates in Subsets() - strategies.Keys;
      assert Subsets() - strategies[candidates := strategy].Keys == (Subsets() - strategies.Keys) - {candidates};
    }

    /**
     * recursivelyBuildStrategy. It terminates because every call that recurses has added a strategy
     * for a set of candidates that had none before. Where offsets are true, every level of the recursion
     * has fewer candidates, which bounds its depth.
     */
    method RecursivelyBuildStrategy(candidates: Candidates, bestBytes: seq<ByteStep>) returns (ghost depth: nat)
      requires Valid() && candidates <= k.All() && AllUsable(k, candidates, bestBytes)
      requires firstStrategy.None? ==> candidates == k.All()
      requires WellPlaced(k) ==> Covered(k, candidates, bestBytes)
      requires WellPlaced(k) && firstStrategy.Some? && |candidates| > 1 ==>
                 HasParent(k, firstStrategy.value, strategies, candidates)
      modifies this`distinguishable, this`firstStrategy, this`strategies, this`candidatesBySize
      ensures Valid() && Missing() <= old(Missing()) && old(strategies).Keys <= strategies.Keys
      ensures old(firstStrategy).Some? ==> firstStrategy == old(firstStrategy)
      ensures |candidates| > 1 ==> firstStrategy.Some?
      ensures |candidates| > 1 && old(firstStrategy).Some? ==> candidates in strategies
      ensures WellPlaced(k) && firstStrategy.Some? ==> FiledWell(k, firstStrategy.value, old(strategies), strategies)
      ensures WellPlaced(k) && |candidates| > 1 && candidates !in old(strategies) ==>
                var s := if old(firstStrategy).None? then firstStrategy.value else strategies[candidates];
                Greedy(k, candidates, bestBytes, s) && Splits(k, candidates, s) && Complete(k, strategies, candidates, s)
      ensures WellPlaced(k) ==> depth <= |candidates|
      decreases Missing(), 1
    {
      depth := 0;
      if |candidates| <= 1 || candidates in strategies {
        return;
      }
      var sizePower, narrowedBounds := NarrowSizes(candidates);
      var perfect, narrowedBestBytes := NarrowBestBytes(candidates, bestBytes);
      if perfect.Some? {
        AddPerfect(candidates, bestBytes, perfect.value);
        return;
      }
      if sizePower == |candidates| - 1 {
        AddPerfect(candidates, bestBytes, BySize);
        return;
      }
      var sorted := SortByKey(narrowedBestBytes, DESCENDING_POWER);
      LargestFirst(narrowedBestBytes);
      if WellPlaced(k) {
        NarrowedCover(k, candidates, bestBytes, narrowedBestBytes);
        CoveredSorted(k, candidates, narrowedBestBytes, sorted);
        assert AllEliminate(k, candidates, sorted);
      }
      ghost var s;
      depth, s := BuildBest(candidates, sorted, sizePower, narrowedBounds);
      if WellPlaced(k) {
        BestIsGreedy(k, candidates, bestBytes, narrowedBestBytes, sorted, sizePower, s);
      }
    }

    /** The early exits: a strategy that eliminates all candidates but one. */
    method AddPerfect(candidates: Candidates, ghost bestBytes: seq<ByteStep>, strategy: Strategy)
      requires Valid() && candidates <= k.All() && |candidates| > 1 && candidates !in strategies
      requires firstStrategy.None? ==> candidates == k.All()
      requires strategy != Indistinguishable && Sound(k, candidates, strategy)
      requires WellPlaced(k) ==> Eliminates(k, candidates, strategy, |candidates| - 1)
      requires WellPlaced(k) && firstStrategy.Some? ==> HasParent(k, firstStrategy.value, strategies, candidates)
      modifies this`firstStrategy, this`strategies, this`candidatesBySize
      ensures Valid() && Missing() < old(Missing()) && old(strategies).Keys <= strategies.Keys && firstStrategy.Some?
      ensures if old(firstStrategy).None? then firstStrategy == Some(strategy)
              else firstStrategy == old(firstStrategy) && candidates in strategies && strategies[candidates] == strategy
      ensures WellPlaced(k) ==> FiledWell(k, firstStrategy.value, old(strategies), strategies)
      ensures WellPlaced(k) ==>
                && Greedy(k, candidates, bestBytes, strategy) && Splits(k, candidates, strategy)
                && Complete(k, strategies, candidates, strategy)
    {
      ghost var wasFirst := firstStrategy.None?;
      AddStrategy(candidates, strategy);
      GrowsTwice(wasFirst, old(strategies), candidates, strategy, strategies);
      if WellPlaced(k) {
        NothingFiled(k, firstStrategy.value, strategies);
        PerfectStrategy(k, candidates, bestBytes, strategy, strategies);
        BranchesBuilt(k, wasFirst, firstStrategy.value, old(strategies), strategies, candidates, strategy);
      }
    }

    /** Byte discriminators are preferred over size discriminators; either recurses. */
    method BuildBest(candidates: Candidates, sorted: seq<ByteStep>, sizePower: int, narrowedBounds: Steps)
      returns (ghost depth: nat, ghost s: Strategy)
      requires Valid() && candidates <= k.All() && |candidates| > 1 && candidates !in strategies
      requires firstStrategy.None? ==> candidates == k.All()
      requires AllNarrow(k, candidates, sorted) && Sizes(k, candidates, sizePower, narrowedBounds)
      requires WellPlaced(k) ==> Covered(k, candidates, sorted) && AllEliminate(k, candidates, sorted)
      requires WellPlaced(k) && firstStrategy.Some? ==> HasParent(k, firstStrategy.value, strategies, candidates)
      modifies this`distinguishable, this`firstStrategy, this`strategies, this`candidatesBySize
      ensures Valid() && Missing() <= old(Missing()) && old(strategies).Keys <= strategies.Keys && firstStrategy.Some?
      ensures if old(firstStrategy).None? then firstStrategy == Some(s)
              else firstStrategy == old(firstStrategy) && candidates in strategies
      ensures WellPlaced(k) && old(firstStrategy).Some? ==> strategies[candidates] == s
      ensures WellPlaced(k) ==> FiledWell(k, firstStrategy.value, old(strategies), strategies)
      ensures WellPlaced(k) ==> Best(k, candidates, sorted, sizePower, s) && Complete(k, strategies, candidates, s)
      ensures WellPlaced(k) ==> depth <= |candidates|
      decreases Missing(), 0
    {
      ghost var wasFirst := firstStrategy.None?;
      ghost var before := strategies;
      if WellPlaced(k) {
        BestLeads(k, candidates, sorted, sizePower);
      }
      if |sorted| > 0 && sorted[0].power >= sizePower {
        s := ByteStrategy(sorted[0]);
        assert sorted[0] in sorted;
        AddStrategy(candidates, ByByte(sorted[0].bytePos, sorted[0].outOfBounds, sorted[0].distinct));
        depth := BuildByteBranches(candidates, sorted);
      } else if sizePower > 0 {
        s := BySize;
        AddStrategy(candidates, BySize);
        depth := BuildSizeBranches(candidates, narrowedBounds, sorted);
      } else {
        s, depth := Indistinguishable, 0;
        AddIndistinguishable(candidates, sorted);
      }
      if WellPlaced(k) {
        GrowsTwice(wasFirst, before, candidates, s, strategies);
        BestOf(k, candidates, sorted, sizePower, s);
        BranchesBuilt(k, wasFirst, firstStrategy.value, before, strategies, candidates, s);
      }
    }

    /** The candidates cannot be told apart. */
    method AddIndistinguishable(candidates: Candidates, ghost sorted: seq<ByteStep>)
      requires Valid() && candidates <= k.All() && candidates !in strategies
      requires firstStrategy.None? ==> candidates == k.All()
      requires WellPlaced(k) ==> SomeAlike(k)
      modifies this`distinguishable, this`firstStrategy, this`strategies, this`candidatesBySize
      ensures Valid() && Missing() < old(Missing())
      ensures firstStrategy == if old(firstStrategy).None? then Some(Indistinguishable) else old(firstStrategy)
      ensures strategies == Added(old(firstStrategy).None?, old(strategies), candidates, Indistinguishable)
    {
      distinguishable := false;
      AddStrategy(candidates, Indistinguishable);
    }

    /** The recursive calls after a byte strategy: too short, and one for every value. */
    method BuildByteBranches(candidates: Candidates, sorted: seq<ByteStep>) returns (ghost depth: nat)
      requires Valid() && firstStrategy.Some? && candidates <= k.All()
      requires |sorted| > 0 && AllNarrow(k, candidates, sorted)
      requires WellPlaced(k) ==> Covered(k, candidates, sorted) && ByteEliminates(k, candidates, sorted[0].bytePos, 1)
      requires WellPlaced(k) ==> MadeFor(k, firstStrategy.value, strategies, candidates, ByteStrategy(sorted[0]))
      modifies this`distinguishable, this`firstStrategy, this`strategies, this`candidatesBySize
      ensures Valid() && Missing() <= old(Missing()) && old(strategies).Keys <= strategies.Keys
      ensures firstStrategy == old(firstStrategy)
      ensures WellPlaced(k) ==> FiledWell(k, firstStrategy.value, old(strategies), strategies)
      ensures WellPlaced(k) ==> Complete(k, strategies, candidates, ByteStrategy(sorted[0]))
      ensures WellPlaced(k) ==> depth <= |candidates|
      decreases Missing(), 4
    {
      var best := sorted[0];
      ghost var s := ByteStrategy(best);
      var branches := ValueBranches(best);
      ByteBranchesBuildable(k, candidates, sorted);
      depth := BuildBranch(candidates, s, best.outOfBounds, sorted);
      ghost var between := strategies;
      if WellPlaced(k) {
        MadeForLater(k, firstStrategy.value, old(strategies), between, candidates, s);
      }
      ghost var deepest := BuildBranches(candidates, s, branches, sorted[1..]);
      depth := if deepest > depth then deepest else depth;
      if WellPlaced(k) {
        FiledWellLater(k, firstStrategy.value, old(strategies), between, strategies);
        SettledLater(between, strategies, candidates, best.outOfBounds);
        ByteBranchesSettled(k, candidates, best, strategies);
      }
    }

    /** The recursive calls after a size strategy. */
    method BuildSizeBranches(candidates: Candidates, narrowedBounds: Steps, sorted: seq<ByteStep>)
      returns (ghost depth: nat)
      requires Valid() && firstStrategy.Some? && candidates <= k.All()
      requires AllNarrow(k, candidates, sorted) && Overlaps(k, candidates, candidates, narrowedBounds)
      requires WellPlaced(k) ==> Covered(k, candidates, sorted) && SizeEliminates(k, candidates, 1)
      requires WellPlaced(k) ==> MadeFor(k, firstStrategy.value, strategies, candidates, BySize)
      modifies this`distinguishable, this`firstStrategy, this`strategies, this`candidatesBySize
      ensures Valid() && Missing() <= old(Missing()) && old(strategies).Keys <= strategies.Keys
      ensures firstStrategy == old(firstStrategy)
      ensures WellPlaced(k) ==> FiledWell(k, firstStrategy.value, old(strategies), strategies)
      ensures WellPlaced(k) ==> Complete(k, strategies, candidates, BySize)
      ensures WellPlaced(k) ==> depth <= |candidates|
      decreases Missing(), 4
    {
      var branches := seq(|narrowedBounds|, j requires 0 <= j < |narrowedBounds| => narrowedBounds[j].1);
      SizeBranchesBuildable(k, candidates, narrowedBounds, sorted, branches);
      depth := BuildBranches(candidates, BySize, branches, sorted);
      if WellPlaced(k) {
        SizesSettled(k, candidates, narrowedBounds, branches, strategies);
      }
    }

    /** The loops over the sets that remain, with a recursive call for each. */
    method BuildBranches(ghost made: Candidates, ghost s: Strategy, branches: seq<Candidates>, steps: seq<ByteStep>)
      returns (ghost depth: nat)
      requires Valid() && firstStrategy.Some? && made <= k.All() && AllBuildable(k, made, s, branches, steps)
      requires WellPlaced(k) ==> MadeFor(k, firstStrategy.value, strategies, made, s)
      modifies this`distinguishable, this`firstStrategy, this`strategies, this`candidatesBySize
      ensures Valid() && Missing() <= old(Missing()) && old(strategies).Keys <= strategies.Keys
      ensures firstStrategy == old(firstStrategy)
      ensures WellPlaced(k) ==>
                BuiltSoFar(k, firstStrategy.value, old(strategies), strategies, made, branches) && depth <= |made|
      decreases Missing(), 3
    {
      depth := 0;
      ghost var first, before := firstStrategy.value, strategies;
      NothingBuilt(k, first, before, made);
      assert branches[..0] == [];
      for j := 0 to |branches|
        invariant Valid() && Missing() <= old(Missing()) && before.Keys <= strategies.Keys
        invariant firstStrategy == Some(first)
        invariant WellPlaced(k) ==> BuiltSoFar(k, first, before, strategies, made, branches[..j]) && depth <= |made|
      {
        ghost var below := BuildNext(made, s, branches, j, steps, before);
        depth := if below > depth then below else depth;
      }
      assert branches[..|branches|] == branches;
    }

    /** One round of the loop. */
    method BuildNext(ghost made: Candidates, ghost s: Strategy, branches: seq<Candidates>, j: nat, steps: seq<ByteStep>,
                     ghost before: map<Candidates, Strategy>)
      returns (ghost depth: nat)
      requires Valid() && firstStrategy.Some? && made <= k.All()
      requires j < |branches| && AllBuildable(k, made, s, branches, steps)
      requires WellPlaced(k) ==>
                 && MadeFor(k, firstStrategy.value, before, made, s)
                 && BuiltSoFar(k, firstStrategy.value, before, strategies, made, branches[..j])
      modifies this`distinguishable, this`firstStrategy, this`strategies, this`candidatesBySize
      ensures Valid() && Missing() <= old(Missing()) && old(strategies).Keys <= strategies.Keys
      ensures firstStrategy == old(firstStrategy)
      ensures WellPlaced(k) ==>
                BuiltSoFar(k, firstStrategy.value, before, strategies, made, branches[..j + 1]) && depth <= |made|
      decreases Missing(), 2, 1
    {
      ghost var between := strategies;
      assert branches[j] in branches && branches[..j + 1] == branches[..j] + [branches[j]];
      if WellPlaced(k) {
        MadeForLater(k, firstStrategy.value, before, between, made, s);
      }
      depth := BuildBranch(made, s, branches[j], steps);
      if WellPlaced(k) {
        BuiltMore(k, firstStrategy.value, before, between, strategies, made, branches[..j], branches[j]);
      }
    }

    /** One recursive call. */
    method BuildBranch(ghost made: Candidates, ghost s: Strategy, branch: Candidates, steps: seq<ByteStep>)
      returns (ghost depth: nat)
      requires Valid() && firstStrategy.Some? && made <= k.All()
      requires WellPlaced(k) ==> MadeFor(k, firstStrategy.value, strategies, made, s)
      requires Buildable(k, made, s, branch, steps)
      modifies this`distinguishable, this`firstStrategy, this`strategies, this`candidatesBySize
      ensures Valid() && Missing() <= old(Missing()) && old(strategies).Keys <= strategies.Keys
      ensures firstStrategy == old(firstStrategy)
      ensures WellPlaced(k) ==> FiledWell(k, firstStrategy.value, old(strategies), strategies)
      ensures WellPlaced(k) ==> Settled(strategies, made, branch) && depth <= |made|
      decreases Missing(), 2, 0
    {
      if WellPlaced(k) {
        BranchHasParent(k, firstStrategy.value, strategies, made, s, branch);
        SmallerCount(branch, made);
      }
      depth := RecursivelyBuildStrategy(branch, steps);
      depth := depth + 1;
    }
  }
}
