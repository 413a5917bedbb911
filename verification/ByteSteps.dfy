// discriminate.ts: what a look at one byte position tells about a set of layouts, and the discriminator that
// needs no more than that.
module ByteSteps {
  import opened Common
  import opened Layouts
  import opened Serialize
  import opened LayoutMeta
  import opened OrderedMap
  import opened Sweep
  import opened Knowledge

  type ByValue = OMap<byte, Candidates>

  // ---- one byte position ------------------------------------------------------------------

  /** `groups` collects, under every value of the column, the layouts that have it. */
  ghost predicate Grouped(groups: ByValue, column: Column) {
    && KeysDistinct(groups)
    && (forall e <- groups :: e.1 != {} && forall i: nat :: i in e.1 <==> (e.0, i) in column)
    && (forall c <- column :: HasKey(groups, c.0))
  }

  /** distinctValues. */
  method GroupByValue(column: Column) returns (groups: ByValue)
    ensures Grouped(groups, column)
  {
    groups := [];
    for j := 0 to |column|
      invariant Grouped(groups, column[..j])
    {
      groups := AddToGroup(groups, column, j);
    }
    assert column[..|column|] == column;
  }

  method AddToGroup(groups: ByValue, column: Column, j: nat) returns (groups': ByValue)
    requires j < |column| && Grouped(groups, column[..j])
    ensures Grouped(groups', column[..j + 1])
  {
    var (v, i) := column[j];
    assert column[..j + 1] == column[..j] + [(v, i)];
    var found := Get(groups, v);
    if found.None? {
      PutNew(groups, v, {i});
      NewGroup(groups, column[..j], v, i);
      groups' := Put(groups, v, {i});
    } else {
      ghost var a := LargerGroup(groups, column[..j], v, i);
      PutAt(groups, a, groups[a].1 + {i});
      GetAt(groups, a);
      groups' := Put(groups, v, found.value + {i});
    }
  }

  lemma NewGroup(groups: ByValue, column: Column, v: byte, i: nat)
    requires Grouped(groups, column) && !HasKey(groups, v)
    ensures Grouped(groups + [(v, {i})], column + [(v, i)])
  {
    var groups', column' := groups + [(v, {i})], column + [(v, i)];
    assert forall c :: c in column' <==> c in column || c == (v, i);
    assert forall c <- column :: c.0 != v;
    forall c | c in column'
      ensures HasKey(groups', c.0)
    {
      if c in column {
        var a :| 0 <= a < |groups| && groups[a].0 == c.0;
        assert groups'[a].0 == c.0;
      } else {
        assert groups'[|groups|].0 == c.0;
      }
    }
    forall e | e in groups'
      ensures e.1 != {} && forall x: nat :: x in e.1 <==> (e.0, x) in column'
    {
      if e in groups {
        var a :| 0 <= a < |groups| && groups[a] == e;
        assert e.0 != v;
      }
    }
  }

  lemma LargerGroup(groups: ByValue, column: Column, v: byte, i: nat) returns (a: nat)
    requires Grouped(groups, column) && HasKey(groups, v)
    ensures a < |groups| && groups[a].0 == v
    ensures Grouped(groups[a := (v, groups[a].1 + {i})], column + [(v, i)])
  {
    a :| 0 <= a < |groups| && groups[a].0 == v;
    var groups', column' := groups[a := (v, groups[a].1 + {i})], column + [(v, i)];
    forall c | c in column'
      ensures HasKey(groups', c.0)
    {
      var b :| 0 <= b < |groups| && groups[b].0 == c.0;
      assert groups'[b].0 == c.0;
    }
    forall b | 0 <= b < |groups'|
      ensures groups'[b].1 != {} && forall x: nat :: x in groups'[b].1 <==> (groups'[b].0, x) in column'
    {
      LargerGroupAt(groups, column, a, i, b);
    }
  }

  lemma LargerGroupAt(groups: ByValue, column: Column, a: nat, i: nat, b: nat)
    requires Grouped(groups, column) && a < |groups| && b < |groups|
    ensures var e := groups[a := (groups[a].0, groups[a].1 + {i})][b];
            e.1 != {} && forall x: nat :: x in e.1 <==> (e.0, x) in column + [(groups[a].0, i)]
  {
    var c := (groups[a].0, i);
    assert forall d :: d in column + [c] <==> d in column || d == c;
    assert groups[b] in groups && groups[a] in groups;
    assert b != a ==> groups[b].0 != groups[a].0;
  }

  /**
   * How many layouts a byte is sure to eliminate: the minimum of the number of layouts that have a
   * byte there and, over the values it may have, of those that lack that value.
   */
  ghost predicate IsPower(power: int, withByte: int, known: int, outOfBounds: int, groups: ByValue) {
    && power <= withByte
    && (forall e <- groups :: power <= known - |e.1| + outOfBounds)
    && (power == withByte || exists e <- groups :: power == known - |e.1| + outOfBounds)
  }

  method Power(withByte: int, known: int, outOfBounds: int, groups: ByValue) returns (power: int)
    ensures IsPower(power, withByte, known, outOfBounds, groups)
  {
    power := withByte;
    for j := 0 to |groups|
      invariant IsPower(power, withByte, known, outOfBounds, groups[..j])
    {
      assert groups[..j + 1] == groups[..j] + [groups[j]];
      assert groups[j] in groups[..j + 1];
      var curPower := known - |groups[j].1| + outOfBounds;
      assert forall e <- groups[..j] :: e in groups[..j + 1];
      power := if curPower < power then curPower else power;
    }
    assert groups[..|groups|] == groups;
  }

  datatype ByteStep = ByteStep(power: int, bytePos: nat, outOfBounds: Candidates, distinct: ByValue, anyValue: Candidates)

  /** Everything the table for position `p` says. */
  ghost predicate StepAt(k: Known, p: nat, step: ByteStep)
    requires k.Valid()
  {
    && step.bytePos == p
    && step.outOfBounds == k.OutOfBounds(p)
    && Grouped(step.distinct, ColumnOf(k.fixed, |k.fixed|, p))
    && step.anyValue == k.AnyAt(p)
    && IsPower(step.power, |k.WithByteAt(p)|, |ColumnOf(k.fixed, |k.fixed|, p)|, |k.OutOfBounds(p)|, step.distinct)
  }

  lemma GroupIsFixedWith(k: Known, p: nat, step: ByteStep)
    requires k.Valid() && StepAt(k, p, step)
    ensures forall e <- step.distinct :: e.1 == k.FixedWith(p, e.0)
    ensures forall v: byte :: HasKey(step.distinct, v) <==> k.FixedWith(p, v) != {}
  {
    var column := ColumnOf(k.fixed, |k.fixed|, p);
    ColumnMembers(k.fixed, |k.fixed|, p);
    forall v: byte
      ensures HasKey(step.distinct, v) <==> k.FixedWith(p, v) != {}
    {
      if HasKey(step.distinct, v) {
        var j :| 0 <= j < |step.distinct| && step.distinct[j].0 == v;
        assert step.distinct[j] in step.distinct;
        var i: nat :| i in step.distinct[j].1;
        assert (v, i) in column;
        assert i in k.FixedWith(p, v);
      }
      if k.FixedWith(p, v) != {} {
        var i: nat :| i in k.FixedWith(p, v);
        assert (v, i) in column;
      }
    }
    forall e | e in step.distinct
      ensures e.1 == k.FixedWith(p, e.0)
    {
      forall i: nat
        ensures i in e.1 <==> i in k.FixedWith(p, e.0)
      {
        assert i in e.1 <==> (e.0, i) in column;
      }
    }
  }

  function IndicesOfColumn(column: Column): Candidates {
    set c | c in column :: c.1
  }

  lemma IndicesOfColumnAreFixed(k: Known, p: nat)
    requires k.Valid()
    ensures IndicesOfColumn(ColumnOf(k.fixed, |k.fixed|, p)) == k.FixedAt(p)
  {
    var column := ColumnOf(k.fixed, |k.fixed|, p);
    ColumnMembers(k.fixed, |k.fixed|, p);
    forall i | i in k.FixedAt(p)
      ensures i in IndicesOfColumn(column)
    {
      var v := ValuesAt(k.fixed[i], p)[0];
      assert (v, i) in column;
    }
    forall i | i in IndicesOfColumn(column)
      ensures i in k.FixedAt(p)
    {
      var c :| c in column && c.1 == i;
      assert (c.0, c.1) in column;
    }
  }

  lemma ByteOrNoByte(k: Known, p: nat)
    ensures Xor(k.All(), k.WithByteAt(p)) == k.OutOfBounds(p)
    ensures |k.WithByteAt(p)| + |k.OutOfBounds(p)| == |k.bounds|
  {
    assert k.WithByteAt(p) + k.OutOfBounds(p) == k.All();
    assert k.WithByteAt(p) * k.OutOfBounds(p) == {};
    assert |k.WithByteAt(p) + k.OutOfBounds(p)| == |k.WithByteAt(p)| + |k.OutOfBounds(p)|;
  }

  method BuildStep(k: Known, mustHaveByteAt: Steps, column: Column, p: nat) returns (step: ByteStep)
    requires k.Valid()
    requires forall x: nat :: ValueAt(mustHaveByteAt, k.All(), x) == k.WithByteAt(x)
    requires column == ColumnOf(k.fixed, |k.fixed|, p)
    ensures StepAt(k, p, step)
  {
    var lwba := Walk(mustHaveByteAt, k.All(), p);
    var anyValueLayouts := Xor(lwba, IndicesOfColumn(column));
    var outOfBoundsLayouts := Xor(k.All(), lwba);
    var distinctValues := GroupByValue(column);
    var power := Power(|lwba|, |column|, |outOfBoundsLayouts|, distinctValues);
    IndicesOfColumnAreFixed(k, p);
    ByteOrNoByte(k, p);
    step := ByteStep(power, p, outOfBoundsLayouts, distinctValues, anyValueLayouts);
  }

  // ---- perfect byte discriminator ---------------------------------------------------------

  /** What the function returned for a perfect byte discriminator computes. */
  function ByteAnswer(step: ByteStep, encoded: bytes): Candidates {
    if |encoded| <= step.bytePos then step.outOfBounds
    else
      match Get(step.distinct, encoded[step.bytePos])
      case Some(candidates) => candidates
      case None => {}
  }

  /** At most one value per position and layout, and only where the layout is sure to have a byte. */
  ghost predicate WellPlaced(k: Known)
    requires k.Valid()
  {
    forall i, p: nat | 0 <= i < |k.fixed| ::
      |ValuesAt(k.fixed[i], p)| <= 1 && (p >= k.bounds[i].lower ==> ValuesAt(k.fixed[i], p) == [])
  }

  lemma AnchoredIsWellPlaced(k: Known, layouts: seq<Layout>)
    requires Describes(k, layouts) && k.Valid()
    requires forall l <- layouts :: Anchored(l, NOTHING)
    ensures WellPlaced(k)
  {
    forall i, p: nat | 0 <= i < |k.fixed|
      ensures |ValuesAt(k.fixed[i], p)| <= 1 && (p >= k.bounds[i].lower ==> ValuesAt(k.fixed[i], p) == [])
    {
      assert layouts[i] in layouts;
      OneValuePerPosition(layouts[i], p);
    }
  }

  function FixedAmong(k: Known, n: nat, p: nat): Candidates
    requires n <= |k.fixed|
  {
    set i | 0 <= i < n && ValuesAt(k.fixed[i], p) != []
  }

  lemma {:induction false} ColumnLength(k: Known, n: nat, p: nat)
    requires k.Valid() && WellPlaced(k) && n <= |k.fixed|
    ensures |ColumnOf(k.fixed, n, p)| == |FixedAmong(k, n, p)|
  {
    if n > 0 {
      ColumnLength(k, n - 1, p);
      var values := ValuesAt(k.fixed[n - 1], p);
      assert |values| <= 1;
      assert |ColumnOf(k.fixed, n, p)| == |ColumnOf(k.fixed, n - 1, p)| + |values|;
      FixedAmongNext(k, n - 1, p);
    }
  }

  lemma FixedAmongNext(k: Known, n: nat, p: nat)
    requires n < |k.fixed|
    ensures |FixedAmong(k, n + 1, p)| == |FixedAmong(k, n, p)| + if ValuesAt(k.fixed[n], p) == [] then 0 else 1
  {
    if ValuesAt(k.fixed[n], p) == [] {
      assert FixedAmong(k, n + 1, p) == FixedAmong(k, n, p);
    } else {
      assert FixedAmong(k, n + 1, p) == FixedAmong(k, n, p) + {n};
    }
  }

  /** The layouts split into those too short, those with a known byte and those with any byte there. */
  lemma Partition(k: Known, p: nat)
    requires k.Valid() && WellPlaced(k)
    ensures var any := k.AnyAt(p);
            && k.OutOfBounds(p) + k.FixedAt(p) + any == k.All()
            && k.OutOfBounds(p) !! k.FixedAt(p) && k.OutOfBounds(p) !! any && k.FixedAt(p) !! any
            && |k.OutOfBounds(p)| + |ColumnOf(k.fixed, |k.fixed|, p)| + |any| == |k.bounds|
  {
    ColumnLength(k, |k.fixed|, p);
    assert k.FixedAt(p) == FixedAmong(k, |k.fixed|, p);
    KnownHaveByte(k, p);
    ByteOrNoByte(k, p);
    SplitThreeWays(k.All(), k.WithByteAt(p), k.OutOfBounds(p), k.FixedAt(p));
  }

  lemma KnownHaveByte(k: Known, p: nat)
    requires k.Valid() && WellPlaced(k)
    ensures k.FixedAt(p) <= k.WithByteAt(p)
    ensures k.WithByteAt(p) + k.OutOfBounds(p) == k.All() && k.WithByteAt(p) !! k.OutOfBounds(p)
  {
    forall i | i in k.FixedAt(p)
      ensures i in k.WithByteAt(p)
    {
      assert p < k.bounds[i].lower;
    }
  }

  lemma SplitThreeWays(all: Candidates, with: Candidates, out: Candidates, part: Candidates)
    requires with + out == all && with !! out && part <= with
    ensures var any := Xor(with, part);
            && out + part + any == all && out !! part && out !! any && part !! any
            && |out| + |part| + |any| == |all|
  {
    var any := Xor(with, part);
    assert any == with - part;
    assert with == part + any;
    assert |with| == |part| + |any|;
    assert |all| == |with| + |out|;
  }

  lemma SingletonIs(s: Candidates, i: nat)
    requires i in s && |s| <= 1
    ensures s == {i}
  {
    assert |s - {i}| == |s| - 1;
    assert s == {i} + (s - {i});
  }

  /** With full power and some known byte, every layout is either too short or alone with its value. */
  lemma PerfectPartition(k: Known, p: nat, step: ByteStep)
    requires k.Valid() && WellPlaced(k) && StepAt(k, p, step)
    requires step.power == |k.bounds| - 1 && |step.distinct| > 0
    ensures |k.OutOfBounds(p)| <= 1
    ensures k.OutOfBounds(p) + k.FixedAt(p) == k.All()
    ensures forall e <- step.distinct :: |e.1| == 1
  {
    Partition(k, p);
    ByteOrNoByte(k, p);
    assert step.distinct[0] in step.distinct;
    forall e | e in step.distinct
      ensures |e.1| == 1
    {
      NonEmptyCount(e.1);
    }
    var any := k.AnyAt(p);
    assert |any| == 0;
  }

  lemma NonEmptyCount(s: Candidates)
    requires s != {}
    ensures |s| >= 1
  {
  }

  /** A perfect byte discriminator never leaves more than one layout, whatever the data. */
  lemma PerfectByteIsUnambiguous(k: Known, p: nat, step: ByteStep, encoded: bytes)
    requires k.Valid() && WellPlaced(k) && StepAt(k, p, step)
    requires step.power == |k.bounds| - 1
    ensures |ByteAnswer(step, encoded)| <= 1
  {
    if |encoded| <= p {
      ByteOrNoByte(k, p);
    } else if Get(step.distinct, encoded[p]).Some? {
      var group := (encoded[p], Get(step.distinct, encoded[p]).value);
      assert group in step.distinct;
      PerfectPartition(k, p, step);
      assert |group.1| == 1;
    }
  }

  /** Data of a size that layout `i` can have, with the byte at position `p` that it is known to have. */
  ghost predicate Conforms(k: Known, p: nat, i: nat, encoded: bytes)
    requires k.Valid()
  {
    && i < |k.bounds| && k.bounds[i].Contains(|encoded|)
    && forall v <- ValuesAt(k.fixed[i], p) :: p < |encoded| && encoded[p] == v
  }

  /** What a serialization of a layout is to the discriminator: its size is known, and its bytes if offsets are. */
  lemma SerializationConforms(k: Known, layouts: seq<Layout>, i: nat, data: Value, encoded: bytes)
    requires Describes(k, layouts) && k.Valid() && i < |layouts|
    requires LayoutBytes(layouts[i], data) == Ok(encoded)
    ensures k.bounds[i].Contains(|encoded|)
    ensures Anchored(layouts[i], NOTHING) ==> forall p: nat :: Conforms(k, p, i, encoded)
  {
    BoundsHold(layouts[i], data);
    if Anchored(layouts[i], NOTHING) {
      FixedBytesAppear(layouts[i], data);
      forall p: nat
        ensures Conforms(k, p, i, encoded)
      {
        ValuesAtAppear(k.fixed[i], p, encoded);
      }
    }
  }

  /**
   * The answer of a perfect byte discriminator on data of layout `i` is exactly `i` if, and only if, the data
   * is too short for the position, or the layout is sure to have a byte there and some layout fixes it.
   */
  lemma PerfectByteAnswer(k: Known, p: nat, step: ByteStep, i: nat, encoded: bytes)
    requires k.Valid() && WellPlaced(k) && StepAt(k, p, step)
    requires step.power == |k.bounds| - 1
    requires Conforms(k, p, i, encoded)
    ensures ByteAnswer(step, encoded) == {i} <==> |encoded| <= p || (p < k.bounds[i].lower && |step.distinct| > 0)
    ensures p < k.bounds[i].lower ==> ByteAnswer(step, encoded) == {i} || ByteAnswer(step, encoded) == {}
  {
    if |encoded| <= p {
      ByteOrNoByte(k, p);
      SingletonIs(k.OutOfBounds(p), i);
    } else if |step.distinct| == 0 {
      assert Get(step.distinct, encoded[p]).None?;
    } else if p < k.bounds[i].lower {
      KnownByteAnswer(k, p, step, i, encoded);
    } else {
      NotKnownThere(k, p, step, i, encoded[p]);
    }
  }

  /** A layout that may end before the position is in none of the groups. */
  lemma NotKnownThere(k: Known, p: nat, step: ByteStep, i: nat, v: byte)
    requires k.Valid() && WellPlaced(k) && StepAt(k, p, step)
    requires i < |k.bounds| && k.bounds[i].lower <= p
    ensures Get(step.distinct, v).Some? ==> i !in Get(step.distinct, v).value
  {
    GroupIsFixedWith(k, p, step);
    var found := Get(step.distinct, v);
    if found.Some? {
      assert (v, found.value) in step.distinct;
      assert ValuesAt(k.fixed[i], p) == [];
    }
  }

  lemma KnownByteAnswer(k: Known, p: nat, step: ByteStep, i: nat, encoded: bytes)
    requires k.Valid() && WellPlaced(k) && StepAt(k, p, step)
    requires step.power == |k.bounds| - 1 && |step.distinct| > 0
    requires Conforms(k, p, i, encoded) && p < k.bounds[i].lower
    ensures ByteAnswer(step, encoded) == {i}
  {
    PerfectPartition(k, p, step);
    assert i in k.All() && i !in k.OutOfBounds(p) && i in k.FixedAt(p);
    var v := ValuesAt(k.fixed[i], p)[0];
    assert v in ValuesAt(k.fixed[i], p) && encoded[p] == v;
    KnownGroup(k, p, step, i, v);
  }

  lemma KnownGroup(k: Known, p: nat, step: ByteStep, i: nat, v: byte)
    requires k.Valid() && StepAt(k, p, step) && i in k.FixedWith(p, v)
    requires forall e <- step.distinct :: |e.1| == 1
    ensures Get(step.distinct, v) == Some({i})
  {
    GroupIsFixedWith(k, p, step);
    var group := (v, Get(step.distinct, v).value);
    assert group in step.distinct;
    SingletonIs(group.1, i);
  }

  // ---- what a byte eliminates -------------------------------------------------------------

  lemma SmallerCount(a: Candidates, b: Candidates)
    requires a <= b
    ensures |a| <= |b| && (a != b ==> |a| < |b|)
  {
    assert b == a + (b - a);
  }

  /** Some candidate is known by its byte at position `p`, and whichever such byte is found, at least `n` lack it. */
  ghost predicate ByteEliminates(k: Known, candidates: Candidates, p: nat, n: int)
    requires k.Valid()
  {
    && k.FixedAt(p) * candidates != {}
    && forall v: byte | k.FixedWith(p, v) * candidates != {} ::
         n <= |k.FixedAt(p) * candidates| - |k.FixedWith(p, v) * candidates| + |k.OutOfBounds(p) * candidates|
  }

  /** That is what power means, as long as it does not exceed the number of layouts that have a byte there. */
  lemma PowerEliminates(k: Known, p: nat, step: ByteStep)
    requires k.Valid() && WellPlaced(k) && StepAt(k, p, step)
    ensures forall n | n > 0 ::
              step.distinct != [] && n <= step.power <==> n <= |k.WithByteAt(p)| && ByteEliminates(k, k.All(), p, n)
  {
    ColumnLength(k, |k.fixed|, p);
    assert k.FixedAt(p) == FixedAmong(k, |k.fixed|, p);
    GroupsIfKnown(k, p, step);
    forall n | n > 0
      ensures step.distinct != [] && n <= step.power <==> n <= |k.WithByteAt(p)| && ByteEliminates(k, k.All(), p, n)
    {
      PowerAtLeast(k, p, step, n);
      AmongAll(k, p, n);
    }
  }

  /** Among all layouts there is nothing to intersect. */
  lemma AmongAll(k: Known, p: nat, n: int)
    requires k.Valid()
    ensures ByteEliminates(k, k.All(), p, n) <==>
              && k.FixedAt(p) != {}
              && forall v: byte | k.FixedWith(p, v) != {} :: n <= |k.FixedAt(p)| - |k.FixedWith(p, v)| + |k.OutOfBounds(p)|
  {
    assert k.FixedAt(p) * k.All() == k.FixedAt(p) && k.OutOfBounds(p) * k.All() == k.OutOfBounds(p);
    assert forall v: byte :: k.FixedWith(p, v) * k.All() == k.FixedWith(p, v);
  }

  lemma GroupsIfKnown(k: Known, p: nat, step: ByteStep)
    requires k.Valid() && StepAt(k, p, step)
    ensures |step.distinct| > 0 <==> k.FixedAt(p) != {}
  {
    if i :| i in k.FixedAt(p) {
      KnownHasGroup(k, p, step, i);
    }
    if |step.distinct| > 0 {
      GroupIsFixedWith(k, p, step);
      assert step.distinct[0] in step.distinct;
      var i :| i in step.distinct[0].1;
      assert i in k.FixedAt(p);
    }
  }

  lemma KnownHasGroup(k: Known, p: nat, step: ByteStep, i: nat)
    requires k.Valid() && StepAt(k, p, step) && i in k.FixedAt(p)
    ensures |step.distinct| > 0
  {
    GroupIsFixedWith(k, p, step);
    var v := ValuesAt(k.fixed[i], p)[0];
    assert i in k.FixedWith(p, v);
  }

  lemma PowerAtLeast(k: Known, p: nat, step: ByteStep, n: int)
    requires k.Valid() && StepAt(k, p, step)
    requires |ColumnOf(k.fixed, |k.fixed|, p)| == |k.FixedAt(p)|
    ensures n <= step.power <==>
              && n <= |k.WithByteAt(p)|
              && forall v: byte | k.FixedWith(p, v) != {} :: n <= |k.FixedAt(p)| - |k.FixedWith(p, v)| + |k.OutOfBounds(p)|
  {
    GroupIsFixedWith(k, p, step);
    if n <= step.power {
      forall v: byte | k.FixedWith(p, v) != {}
        ensures n <= |k.FixedAt(p)| - |k.FixedWith(p, v)| + |k.OutOfBounds(p)|
      {
        var a :| 0 <= a < |step.distinct| && step.distinct[a].0 == v;
        assert step.distinct[a] in step.distinct;
      }
    }
  }

  lemma {:induction false} GroupWithinColumn(column: Column, v: byte)
    ensures |set c | c in column && c.0 == v :: c.1| <= |column|
  {
    var group := set c | c in column && c.0 == v :: c.1;
    if column == [] {
      assert group == {};
    } else {
      var front, last := column[..|column| - 1], column[|column| - 1];
      GroupWithinColumn(front, v);
      assert column == front + [last];
      assert group <= (set c | c in front && c.0 == v :: c.1) + {last.1};
      SmallerCount(group, (set c | c in front && c.0 == v :: c.1) + {last.1});
    }
  }

  lemma PowerIsNatural(k: Known, p: nat, step: ByteStep)
    requires k.Valid() && StepAt(k, p, step)
    ensures step.power >= 0
  {
    var column := ColumnOf(k.fixed, |k.fixed|, p);
    forall e | e in step.distinct
      ensures |e.1| <= |column|
    {
      GroupWithinColumn(column, e.0);
      assert e.1 == set c | c in column && c.0 == e.0 :: c.1;
    }
  }

  /** Layout `i` is known to have a byte at position `p`; `j` is known to have another there, or may end before. */
  ghost predicate ToldApart(k: Known, p: nat, i: nat, j: nat)
    requires k.Valid()
  {
    && i < |k.bounds| && j < |k.bounds|
    && exists v <- ValuesAt(k.fixed[i], p) ::
         k.bounds[j].lower <= p || exists w <- ValuesAt(k.fixed[j], p) :: w != v
  }

  /** Nothing that is known about position `p` tells any two of the candidates apart. */
  ghost predicate Blind(k: Known, candidates: Candidates, p: nat)
    requires k.Valid()
  {
    forall i, j | i in candidates && j in candidates :: !ToldApart(k, p, i, j)
  }

  /** A byte that need not eliminate anything tells nothing apart. */
  lemma EliminatesOrBlind(k: Known, candidates: Candidates, p: nat)
    requires k.Valid() && WellPlaced(k) && candidates <= k.All() && !ByteEliminates(k, candidates, p, 1)
    ensures Blind(k, candidates, p)
  {
    var known, short := k.FixedAt(p) * candidates, k.OutOfBounds(p) * candidates;
    if known == {} {
      assert forall i <- candidates :: i !in k.FixedAt(p);
    } else {
      var v: byte :| k.FixedWith(p, v) * candidates != {} && |known| - |k.FixedWith(p, v) * candidates| + |short| < 1;
      SmallerCount(k.FixedWith(p, v) * candidates, known);
      assert known == k.FixedWith(p, v) * candidates && short == {};
      OneValueIsBlind(k, candidates, p, v);
    }
  }

  lemma OneValueIsBlind(k: Known, candidates: Candidates, p: nat, v: byte)
    requires k.Valid() && WellPlaced(k) && candidates <= k.All()
    requires k.FixedAt(p) * candidates <= k.FixedWith(p, v) && k.OutOfBounds(p) * candidates == {}
    ensures Blind(k, candidates, p)
  {
    forall i, j | i in candidates && j in candidates
      ensures !ToldApart(k, p, i, j)
    {
      assert i !in k.OutOfBounds(p) * candidates && j !in k.OutOfBounds(p) * candidates;
      OnlyValue(k, p, v, i);
      OnlyValue(k, p, v, j);
    }
  }

  lemma OnlyValue(k: Known, p: nat, v: byte, i: nat)
    requires k.Valid() && i < |k.bounds| && |ValuesAt(k.fixed[i], p)| <= 1
    requires i !in k.OutOfBounds(p) && (i in k.FixedAt(p) ==> i in k.FixedWith(p, v))
    ensures k.bounds[i].lower > p && forall w <- ValuesAt(k.fixed[i], p) :: w == v
  {
  }
}
