// discriminate.ts: the tables that generateLayoutDiscriminator derives from the metadata of a set of
// layouts - who has a byte at a position, who can have a size, and which bytes are known.
module Knowledge {
  import opened Common
  import opened Layouts
  import opened Serialize
  import opened LayoutMeta
  import opened OrderedMap
  import opened Sorting
  import opened Sweep

  /** `(1n << BigInt(n)) - 1n`: the layouts 0 to n - 1. */
  function FirstLayouts(n: nat): (r: Candidates)
    ensures forall i: nat :: i in r <==> i < n
    ensures |r| == n
  {
    if n == 0 then {} else FirstLayouts(n - 1) + {n - 1}
  }

  /** The metadata of every layout of the set, by layout index. */
  datatype Known = Known(bounds: seq<Bounds>, fixed: seq<FixedBytes>) {

    predicate Valid() {
      && |bounds| == |fixed|
      && forall b <- bounds :: AtLeast(b.upper, b.lower)
    }

    /** All layouts of the set. */
    function All(): Candidates {
      FirstLayouts(|bounds|)
    }

    /** Layouts too short to have a byte at position `p`, going by their lower bound. */
    function OutOfBounds(p: nat): Candidates {
      set i | 0 <= i < |bounds| && bounds[i].lower <= p
    }

    function WithByteAt(p: nat): Candidates {
      set i | 0 <= i < |bounds| && bounds[i].lower > p
    }

    function WithSize(size: nat): Candidates {
      set i | 0 <= i < |bounds| && bounds[i].Contains(size)
    }

    /** Layouts known to have `v` at position `p`. */
    function FixedWith(p: nat, v: byte): Candidates
      requires Valid()
    {
      set i | 0 <= i < |bounds| && v in ValuesAt(fixed[i], p)
    }

    /** Layouts known to have some particular byte at position `p`. */
    function FixedAt(p: nat): Candidates
      requires Valid()
    {
      set i | 0 <= i < |bounds| && ValuesAt(fixed[i], p) != []
    }

    /** anyValueLayouts: sure to have a byte at position `p`, but not known to have a particular one. */
    function AnyAt(p: nat): Candidates
      requires Valid()
    {
      Xor(WithByteAt(p), FixedAt(p))
    }
  }

  /** `k` is what createLayoutMeta computes for each of the layouts. */
  ghost predicate Describes(k: Known, layouts: seq<Layout>) {
    && |k.bounds| == |layouts| == |k.fixed|
    && forall i | 0 <= i < |layouts| ::
         k.bounds[i] == LayoutBounds(layouts[i]) && LayoutFixed(layouts[i], Some(0), NOTHING) == Ok(k.fixed[i])
  }

  lemma DescribedIsValid(k: Known, layouts: seq<Layout>)
    requires Describes(k, layouts)
    ensures k.Valid()
  {
    forall b | b in k.bounds
      ensures AtLeast(b.upper, b.lower)
    {
      var i :| 0 <= i < |layouts| && k.bounds[i] == b;
      BoundsProper(layouts[i]);
    }
  }

  /** All that is known about the layouts, where createLayoutMeta succeeds. */
  ghost function KnownOf(layouts: seq<Layout>): Known {
    Known(seq(|layouts|, i requires 0 <= i < |layouts| => LayoutBounds(layouts[i])),
          seq(|layouts|, i requires 0 <= i < |layouts| => FixedOf(layouts[i])))
  }

  ghost function FixedOf(layout: Layout): FixedBytes {
    match LayoutFixed(layout, Some(0), NOTHING)
    case Ok(pairs) => pairs
    case Err(_) => []
  }

  lemma DescribedIsKnown(k: Known, layouts: seq<Layout>)
    requires Describes(k, layouts)
    ensures k == KnownOf(layouts)
  {
    assert k.bounds == KnownOf(layouts).bounds;
    assert k.fixed == KnownOf(layouts).fixed;
  }

  /** The first two lines: createLayoutMeta for every layout. */
  method CollectMeta(layouts: seq<Layout>) returns (r: Result<Known>)
    ensures r.Ok? ==> Describes(r.value, layouts) && r.value.Valid()
    ensures r.Ok? <==> forall l <- layouts :: ConstantsFit(l)
  {
    var bounds: seq<Bounds>, fixed: seq<FixedBytes> := [], [];
    for i := 0 to |layouts|
      invariant Describes(Known(bounds, fixed), layouts[..i])
    {
      var meta := CreateLayoutMeta(layouts[i], Some(0), []);
      assert layouts[i] in layouts;
      FixedJustIfConstantsFit(layouts[i], Some(0), NOTHING);
      if meta.Err? {
        return Err(meta.error);
      }
      assert [] + meta.value.fixedBytes == meta.value.fixedBytes;
      assert [] + LayoutFixed(layouts[i], Some(0), NOTHING).value == LayoutFixed(layouts[i], Some(0), NOTHING).value;
      bounds, fixed := bounds + [meta.value.bounds], fixed + [meta.value.fixedBytes];
    }
    assert layouts[..|layouts|] == layouts;
    DescribedIsValid(Known(bounds, fixed), layouts);
    forall l | l in layouts
      ensures ConstantsFit(l)
    {
      var i :| 0 <= i < |layouts| && layouts[i] == l;
      FixedJustIfConstantsFit(l, Some(0), NOTHING);
    }
    return Ok(Known(bounds, fixed));
  }

  // ---- tables over sizes and positions ----------------------------------------------------

  function Indexed(bounds: seq<Bounds>): (r: seq<Interval>)
    ensures |r| == |bounds|
  {
    seq(|bounds|, i requires 0 <= i < |bounds| => (bounds[i], i))
  }

  const LOWER_END := (p: Interval) => p.0.lower as int

  method SortBounds(k: Known) returns (sorted: seq<Interval>)
    requires k.Valid()
    ensures SortedByLower(sorted) && ProperBounds(sorted)
    ensures forall p :: p in sorted <==> 0 <= p.1 < |k.bounds| && p.0 == k.bounds[p.1]
    ensures multiset(sorted) == multiset(Indexed(k.bounds))
  {
    var indexed := Indexed(k.bounds);
    sorted := SortByKey(indexed, LOWER_END);
    SortSorts(indexed, LOWER_END);
    SortKeepsElements(indexed, LOWER_END);
    forall i, j | 0 <= i < j < |sorted|
      ensures sorted[i].0.lower <= sorted[j].0.lower
    {
      assert LOWER_END(sorted[i]) <= LOWER_END(sorted[j]);
    }
    forall p
      ensures p in sorted <==> 0 <= p.1 < |k.bounds| && p.0 == k.bounds[p.1]
    {
      if 0 <= p.1 < |k.bounds| && p.0 == k.bounds[p.1] {
        assert indexed[p.1] == p;
      }
    }
    forall p | p in sorted
      ensures AtLeast(p.0.upper, p.0.lower)
    {
      assert p.0 in k.bounds;
    }
  }

  /** `a ^ b` on sets of layouts. */
  function Xor(a: Candidates, b: Candidates): Candidates {
    (a - b) + (b - a)
  }

  lemma IndexedDistinct(bounds: seq<Bounds>, sorted: seq<Interval>)
    requires multiset(sorted) == multiset(Indexed(bounds))
    ensures forall a, b | 0 <= a < b < |sorted| :: sorted[a].1 != sorted[b].1
  {
    forall a, b | 0 <= a < b < |sorted|
      ensures sorted[a].1 != sorted[b].1
    {
      var indexed := Indexed(bounds);
      assert sorted[a] in multiset(sorted) && sorted[b] in multiset(sorted);
      assert sorted[a] in indexed && sorted[b] in indexed;
      if sorted[a].1 == sorted[b].1 {
        assert sorted[a] == sorted[b];
        TwiceInSequence(sorted, a, b);
        OnceInIndexed(bounds, sorted[a]);
        assert false;
      }
    }
  }

  lemma TwiceInSequence<T>(s: seq<T>, a: nat, b: nat)
    requires a < b < |s| && s[a] == s[b]
    ensures multiset(s)[s[a]] >= 2
  {
    assert s == s[..b] + [s[b]] + s[b + 1..];
    assert s[a] in multiset(s[..b]) by { assert s[..b][a] == s[a]; }
  }

  lemma {:induction false} OnceInIndexed(bounds: seq<Bounds>, p: Interval)
    ensures multiset(Indexed(bounds))[p] <= 1
  {
    if |bounds| > 0 {
      var front := bounds[..|bounds| - 1];
      OnceInIndexed(front, p);
      assert Indexed(bounds) == Indexed(front) + [(bounds[|bounds| - 1], |bounds| - 1)];
      if p.1 == |bounds| - 1 {
        assert p !in Indexed(front);
      }
    }
  }

  /** mustHaveByteAt: the layouts left when those with a lower bound up to the key are deleted. */
  method BuildMustHaveByteAt(k: Known, sorted: seq<Interval>) returns (steps: Steps)
    requires k.Valid() && SortedByLower(sorted)
    requires forall p :: p in sorted <==> 0 <= p.1 < |k.bounds| && p.0 == k.bounds[p.1]
    requires multiset(sorted) == multiset(Indexed(k.bounds))
    ensures Ascending(steps)
    ensures forall x: nat :: ValueAt(steps, k.All(), x) == k.WithByteAt(x)
  {
    IndexedDistinct(k.bounds, sorted);
    NoneSeen(k);
    var remaining := k.All();
    steps := [];
    assert sorted[..0] == [];
    assert forall p <- sorted :: p.1 < |k.bounds|;
    for j := 0 to |sorted|
      invariant Deleted(k, steps, remaining, sorted[..j])
    {
      steps, remaining := DeleteNext(k, steps, remaining, sorted, j);
    }
    assert sorted[..|sorted|] == sorted;
    AllSeen(k, sorted);
  }

  /** The state of the loop after `seen`. */
  ghost predicate Deleted(k: Known, steps: Steps, remaining: Candidates, seen: seq<Interval>) {
    && Ascending(steps)
    && (|steps| > 0 ==> seen != [] && steps[|steps| - 1].0 == seen[|seen| - 1].0.lower)
    && remaining == NotSeen(k, seen)
    && forall x: nat :: ValueAt(steps, k.All(), x) == NotSeenUpTo(k, seen, x)
  }

  method DeleteNext(k: Known, steps: Steps, remaining: Candidates, sorted: seq<Interval>, j: nat)
    returns (steps': Steps, remaining': Candidates)
    requires SortedByLower(sorted) && j < |sorted|
    requires forall p <- sorted :: p.1 < |k.bounds|
    requires forall a, b | 0 <= a < b < |sorted| :: sorted[a].1 != sorted[b].1
    requires Deleted(k, steps, remaining, sorted[..j])
    ensures Deleted(k, steps', remaining', sorted[..j + 1])
  {
    var p := sorted[j];
    assert sorted[..j + 1] == sorted[..j] + [p];
    assert j > 0 ==> sorted[j - 1].0.lower <= p.0.lower;
    SeeOne(k, sorted, j);
    remaining' := Xor(remaining, {p.1});
    DeletedOneMore(k, steps, remaining, sorted[..j], p, remaining');
    steps' := Put(steps, p.0.lower, remaining');
  }

  lemma DeletedOneMore(k: Known, steps: Steps, remaining: Candidates, seen: seq<Interval>, p: Interval, remaining': Candidates)
    requires Deleted(k, steps, remaining, seen) && (|seen| > 0 ==> seen[|seen| - 1].0.lower <= p.0.lower)
    requires remaining' == NotSeen(k, seen + [p])
    requires forall x: nat :: NotSeenUpTo(k, seen + [p], x) == if x < p.0.lower then NotSeenUpTo(k, seen, x) else remaining'
    ensures Deleted(k, Put(steps, p.0.lower, remaining'), remaining', seen + [p])
  {
    RecordRemaining(k, steps, seen, p, remaining');
    PutLastAscends(steps, p.0.lower, remaining');
  }

  lemma PutLastAscends(steps: Steps, key: nat, value: Candidates)
    requires Ascending(steps) && (|steps| > 0 ==> steps[|steps| - 1].0 <= key)
    ensures Put(steps, key, value) == PutLast(steps, key, value) && Ascending(PutLast(steps, key, value))
    ensures PutLast(steps, key, value)[|PutLast(steps, key, value)| - 1].0 == key
  {
    PutIsPutLast(steps, key, value);
  }

  lemma RecordRemaining(k: Known, steps: Steps, seen: seq<Interval>, p: Interval, remaining: Candidates)
    requires Ascending(steps) && (|steps| > 0 ==> steps[|steps| - 1].0 <= p.0.lower)
    requires forall x: nat :: ValueAt(steps, k.All(), x) == NotSeenUpTo(k, seen, x)
    requires forall x: nat :: NotSeenUpTo(k, seen + [p], x) == if x < p.0.lower then NotSeenUpTo(k, seen, x) else remaining
    ensures forall x: nat ::
              ValueAt(PutLast(steps, p.0.lower, remaining), k.All(), x) == NotSeenUpTo(k, seen + [p], x)
  {
    forall x: nat
      ensures ValueAt(PutLast(steps, p.0.lower, remaining), k.All(), x) == NotSeenUpTo(k, seen + [p], x)
    {
      ValueAtPutLast(steps, p.0.lower, remaining, k.All(), x);
    }
  }

  lemma AllSeen(k: Known, sorted: seq<Interval>)
    requires forall p :: p in sorted <==> 0 <= p.1 < |k.bounds| && p.0 == k.bounds[p.1]
    ensures forall x: nat :: NotSeenUpTo(k, sorted, x) == k.WithByteAt(x)
  {
    forall x: nat
      ensures NotSeenUpTo(k, sorted, x) == k.WithByteAt(x)
    {
      forall i | 0 <= i < |k.bounds|
        ensures (k.bounds[i], i) in sorted
      {
      }
    }
  }

  ghost function NotSeen(k: Known, seen: seq<Interval>): Candidates {
    set i | i in k.All() && forall p <- seen :: p.1 != i
  }

  /** The layouts left when those of `seen` with a lower bound up to `x` are deleted. */
  ghost function NotSeenUpTo(k: Known, seen: seq<Interval>, x: nat): Candidates {
    set i | i in k.All() && forall p <- seen :: p.1 == i ==> p.0.lower > x
  }

  lemma NoneSeen(k: Known)
    ensures NotSeen(k, []) == k.All() && forall x: nat :: NotSeenUpTo(k, [], x) == k.All()
  {
  }

  lemma SeeOne(k: Known, sorted: seq<Interval>, j: nat)
    requires SortedByLower(sorted) && j < |sorted|
    requires forall p <- sorted :: p.1 < |k.bounds|
    requires forall a, b | 0 <= a < b < |sorted| :: sorted[a].1 != sorted[b].1
    ensures var p, seen := sorted[j], sorted[..j];
            && Xor(NotSeen(k, seen), {p.1}) == NotSeen(k, seen + [p])
            && forall x: nat :: NotSeenUpTo(k, seen + [p], x) ==
                 if x < p.0.lower then NotSeenUpTo(k, seen, x) else NotSeen(k, seen + [p])
  {
    var p, seen := sorted[j], sorted[..j];
    assert p in sorted;
    assert forall q :: q in seen + [p] <==> q in seen || q == p;
    forall q | q in seen
      ensures q.1 != p.1 && q.0.lower <= p.0.lower
    {
      var a :| 0 <= a < j && sorted[a] == q;
    }
  }

  /** Math.max of the number of candidates over all sizes. */
  method LargestStep(steps: Steps) returns (largest: nat)
    ensures forall e <- steps :: |e.1| <= largest
    ensures largest > 0 ==> exists e <- steps :: |e.1| == largest
  {
    largest := 0;
    for j := 0 to |steps|
      invariant forall e <- steps[..j] :: |e.1| <= largest
      invariant largest > 0 ==> exists e <- steps :: |e.1| == largest
    {
      assert steps[j] in steps;
      if |steps[j].1| > largest {
        largest := |steps[j].1|;
      }
    }
    assert steps[..|steps|] == steps;
  }

  // ---- known bytes, position by position --------------------------------------------------

  type Column = seq<(byte, nat)>

  function Tag(values: seq<byte>, i: nat): Column {
    seq(|values|, j requires 0 <= j < |values| => (values[j], i))
  }

  /** The known bytes of the first `n` layouts at position `p`, with the layouts that have them. */
  function ColumnOf(fixed: seq<FixedBytes>, n: nat, p: nat): Column
    requires n <= |fixed|
  {
    if n == 0 then [] else ColumnOf(fixed, n - 1, p) + Tag(ValuesAt(fixed[n - 1], p), n - 1)
  }

  lemma {:induction false} ColumnMembers(fixed: seq<FixedBytes>, n: nat, p: nat)
    requires n <= |fixed|
    ensures forall v, i: nat :: (v, i) in ColumnOf(fixed, n, p) <==> i < n && v in ValuesAt(fixed[i], p)
  {
    if n > 0 {
      ColumnMembers(fixed, n - 1, p);
      var values := ValuesAt(fixed[n - 1], p);
      var tagged := Tag(values, n - 1);
      forall v, i: nat
        ensures (v, i) in tagged <==> i == n - 1 && v in values
      {
        if v in values && i == n - 1 {
          var j :| 0 <= j < |values| && values[j] == v;
          assert tagged[j] == (v, i);
        }
      }
    }
  }

  /** One past the last position any layout is known to have a byte at - judged by its last pair. */
  function Width(fixed: seq<FixedBytes>): nat {
    if |fixed| == 0 then 0
    else
      var last := fixed[|fixed| - 1];
      var end := if |last| > 0 then last[|last| - 1].0 + |last[|last| - 1].1| else 0;
      var before := Width(fixed[..|fixed| - 1]);
      if end > before then end else before
  }

  /** Pushing the bytes of one recorded pair. Pushing onto a missing column is a TypeError. */
  method PushPair(columns: seq<Column>, pair: (nat, bytes), i: nat) returns (r: Result<seq<Column>>)
    ensures r.Ok? <==> (pair.1 == [] || pair.0 + |pair.1| <= |columns|)
    ensures r.Ok? ==> |r.value| == |columns|
    ensures r.Ok? ==> forall p | 0 <= p < |columns| :: r.value[p] == columns[p] + Tag(ValuesAt([pair], p), i)
  {
    var pushed := columns;
    for j := 0 to |pair.1|
      invariant |pushed| == |columns|
      invariant j == 0 || pair.0 + j <= |columns|
      invariant forall p | 0 <= p < |columns| ::
                  pushed[p] == columns[p] + if pair.0 <= p < pair.0 + j then [(pair.1[p - pair.0], i)] else []
    {
      if pair.0 + j >= |columns| {
        return Err(TypeFault);
      }
      pushed := pushed[pair.0 + j := pushed[pair.0 + j] + [(pair.1[j], i)]];
    }
    forall p | 0 <= p < |columns|
      ensures pushed[p] == columns[p] + Tag(ValuesAt([pair], p), i)
    {
      assert ValuesAt([pair], p) == if Covers(pair, p) then [pair.1[p - pair.0]] else [];
    }
    return Ok(pushed);
  }

  predicate PairsFit(pairs: FixedBytes, width: nat) {
    forall pair <- pairs :: pair.1 == [] || pair.0 + |pair.1| <= width
  }

  method PushLayout(columns: seq<Column>, pairs: FixedBytes, i: nat) returns (r: Result<seq<Column>>)
    ensures r.Ok? <==> PairsFit(pairs, |columns|)
    ensures r.Ok? ==> |r.value| == |columns|
    ensures r.Ok? ==> forall p | 0 <= p < |columns| :: r.value[p] == columns[p] + Tag(ValuesAt(pairs, p), i)
  {
    var pushed := columns;
    for e := 0 to |pairs|
      invariant |pushed| == |columns| && PairsFit(pairs[..e], |columns|)
      invariant forall p | 0 <= p < |columns| :: pushed[p] == columns[p] + Tag(ValuesAt(pairs[..e], p), i)
    {
      assert pairs[e] in pairs;
      var next := PushPair(pushed, pairs[e], i);
      if next.Err? {
        return next;
      }
      assert pairs[..e + 1] == pairs[..e] + [pairs[e]];
      forall p | 0 <= p < |columns|
        ensures next.value[p] == columns[p] + Tag(ValuesAt(pairs[..e + 1], p), i)
      {
        ValuesAtAppend(pairs[..e], [pairs[e]], p);
        assert Tag(ValuesAt(pairs[..e + 1], p), i) == Tag(ValuesAt(pairs[..e], p), i) + Tag(ValuesAt([pairs[e]], p), i);
      }
      pushed := next.value;
    }
    assert pairs[..|pairs|] == pairs;
    return Ok(pushed);
  }

  /** fixedKnownBytes. */
  method BuildColumns(k: Known) returns (r: Result<seq<Column>>)
    requires k.Valid()
    ensures r.Ok? <==> forall pairs <- k.fixed :: PairsFit(pairs, Width(k.fixed))
    ensures r.Ok? ==> |r.value| == Width(k.fixed)
    ensures r.Ok? ==> forall p | 0 <= p < |r.value| :: r.value[p] == ColumnOf(k.fixed, |k.fixed|, p)
  {
    var columns: seq<Column> := seq(Width(k.fixed), _ => []);
    for i := 0 to |k.fixed|
      invariant |columns| == Width(k.fixed)
      invariant forall pairs <- k.fixed[..i] :: PairsFit(pairs, |columns|)
      invariant forall p | 0 <= p < |columns| :: columns[p] == ColumnOf(k.fixed, i, p)
    {
      assert k.fixed[i] in k.fixed;
      var next := PushLayout(columns, k.fixed[i], i);
      if next.Err? {
        return next;
      }
      columns := next.value;
    }
    assert k.fixed[..|k.fixed|] == k.fixed;
    return Ok(columns);
  }
}
