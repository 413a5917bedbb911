// discriminate.ts: buildAscendingBounds and the two walks over maps with ascending keys.
module Sweep {
  import opened Common
  import opened OrderedMap
  import opened LayoutMeta

  /** A set of layouts, given by their indices. The source packs it into the bits of a bigint. */
  type Candidates = set<nat>

  type Steps = OMap<nat, Candidates>

  ghost predicate Ascending(steps: Steps) {
    forall i, j | 0 <= i < j < |steps| :: steps[i].0 < steps[j].0
  }

  /** The loop of layoutsWithSize and layoutsWithByteAt: the value of the last key up to `x`. */
  method Walk(steps: Steps, start: Candidates, x: nat) returns (r: Candidates)
    ensures r == ValueAt(steps, start, x)
  {
    r := start;
    assert steps[0..] == steps;
    for i := 0 to |steps|
      invariant ValueAt(steps[i..], r, x) == ValueAt(steps, start, x)
    {
      assert steps[i..][1..] == steps[i + 1..];
      if x < steps[i].0 {
        break;
      }
      r := steps[i].1;
    }
  }

  function ValueAt(steps: Steps, start: Candidates, x: nat): Candidates {
    if |steps| == 0 || x < steps[0].0 then start else ValueAt(steps[1..], steps[0].1, x)
  }

  /** Appending a step changes the value from its key on, and nowhere else. */
  lemma {:induction false} ValueAtAppend(steps: Steps, start: Candidates, key: nat, value: Candidates, x: nat)
    requires forall j | 0 <= j < |steps| :: steps[j].0 < key
    ensures ValueAt(steps + [(key, value)], start, x) == if x < key then ValueAt(steps, start, x) else value
  {
    var longer := steps + [(key, value)];
    if |steps| == 0 {
      assert longer[1..] == [];
    } else if x >= steps[0].0 {
      assert longer[1..] == steps[1..] + [(key, value)];
      ValueAtAppend(steps[1..], steps[0].1, key, value, x);
    }
  }

  lemma {:induction false} ValueFromLast(steps: Steps, start: Candidates, x: nat)
    requires |steps| > 0 && Ascending(steps) && x >= steps[|steps| - 1].0
    ensures ValueAt(steps, start, x) == steps[|steps| - 1].1
  {
    var n := |steps| - 1;
    assert steps == steps[..n] + [steps[n]];
    ValueAtAppend(steps[..n], start, steps[n].0, steps[n].1, x);
  }

  lemma AscendingDistinct(steps: Steps)
    requires Ascending(steps)
    ensures KeysDistinct(steps)
  {
  }

  lemma AscendingTail(steps: Steps)
    requires |steps| > 0 && Ascending(steps)
    ensures Ascending(steps[1..])
  {
    var tail := steps[1..];
    assert forall a | 0 <= a < |tail| :: tail[a] == steps[a + 1];
  }

  /** With ascending keys, looking up a key and walking to it agree. */
  lemma {:induction false} GetIsValueAt(steps: Steps, start: Candidates, j: nat)
    requires Ascending(steps) && j < |steps|
    ensures Get(steps, steps[j].0) == Some(ValueAt(steps, start, steps[j].0))
  {
    AscendingDistinct(steps);
    GetAt(steps, j);
    if j > 0 {
      assert steps[0].0 < steps[j].0;
      AscendingTail(steps);
      AscendingDistinct(steps[1..]);
      GetIsValueAt(steps[1..], steps[0].1, j - 1);
      GetAt(steps[1..], j - 1);
      assert steps[1..][j - 1] == steps[j];
    } else if |steps| > 1 {
      assert steps[0].0 < steps[1].0;
    }
  }

  // ---- the sweep line ---------------------------------------------------------------------

  type Interval = (Bounds, nat)

  ghost predicate SortedByLower(s: seq<Interval>) {
    forall i, j | 0 <= i < j < |s| :: s[i].0.lower <= s[j].0.lower
  }

  predicate AtLeast(upper: Option<nat>, x: nat) {
    upper.Some? ==> upper.value >= x
  }

  ghost predicate ProperBounds(s: seq<Interval>) {
    forall p <- s :: AtLeast(p.0.upper, p.0.lower)
  }

  /** What the sweep line stands for: the layouts that can have size `x`. */
  ghost function Containing(s: seq<Interval>, x: nat): Candidates {
    set p | p in s && p.0.Contains(x) :: p.1
  }

  type Candidate = (Option<nat>, nat)

  function Indices(open: seq<Candidate>): Candidates {
    set c | c in open :: c.1
  }

  function Strip(p: Interval): Candidate {
    (p.0.upper, p.1)
  }

  predicate UpperBefore(a: Option<nat>, b: Option<nat>) {
    b.None? || (a.Some? && a.value <= b.value)
  }

  ghost predicate SortedByUpper(open: seq<Candidate>) {
    forall i, j | 0 <= i < j < |open| :: UpperBefore(open[i].0, open[j].0)
  }

  /**
   * The state between two events of the sweep: it stands at `at`, the last key; `live` are the
   * intervals seen so far that reach at least up to `at`, of which `open` keeps upper end and index.
   */
  ghost predicate Swept(steps: Steps, open: seq<Candidate>, seen: seq<Interval>, live: seq<Interval>, at: nat) {
    && Ascending(steps) && Stripped(open, live) && Reaching(seen, live, at) && TableUpTo(steps, seen, at)
    && (if |steps| == 0 then seen == [] else steps[|steps| - 1] == (at, Indices(open)))
  }

  ghost predicate Stripped(open: seq<Candidate>, live: seq<Interval>) {
    SortedByUpper(open) && |open| == |live| && forall k | 0 <= k < |open| :: open[k] == Strip(live[k])
  }

  ghost predicate Reaching(seen: seq<Interval>, live: seq<Interval>, at: nat) {
    && (forall p :: p in live <==> p in seen && AtLeast(p.0.upper, at))
    && (forall p <- seen :: p.0.lower <= at)
  }

  ghost predicate TableUpTo(steps: Steps, seen: seq<Interval>, at: nat) {
    forall x | 0 <= x <= at :: ValueAt(steps, {}, x) == Containing(seen, x)
  }

  lemma IndicesOfLive(open: seq<Candidate>, live: seq<Interval>)
    requires Stripped(open, live)
    ensures Indices(open) == set p | p in live :: p.1
  {
    forall i | i in Indices(open)
      ensures i in set p | p in live :: p.1
    {
      var c :| c in open && c.1 == i;
      var k :| 0 <= k < |open| && open[k] == c;
      assert live[k] in live && live[k].1 == i;
    }
    forall i | i in set p | p in live :: p.1
      ensures i in Indices(open)
    {
      var p :| p in live && p.1 == i;
      var k :| 0 <= k < |live| && live[k] == p;
      assert open[k] in open;
    }
  }

  /** Between two events nothing changes. */
  lemma SweptBetween(steps: Steps, open: seq<Candidate>, seen: seq<Interval>, live: seq<Interval>, at: nat, x: nat)
    requires Swept(steps, open, seen, live, at) && at <= x
    requires |open| > 0 ==> AtLeast(open[0].0, x)
    ensures ValueAt(steps, {}, x) == Containing(seen, x)
  {
    if |steps| > 0 {
      ValueFromLast(steps, {}, x);
      IndicesOfLive(open, live);
      forall p | p in live
        ensures p.0.Contains(x)
      {
        var k :| 0 <= k < |live| && live[k] == p;
        assert open[k] == Strip(p) && (k > 0 ==> UpperBefore(open[0].0, open[k].0));
      }
    }
  }

  /** First index whose upper end is at least `end`; `|open|` stands for findIndex's -1. */
  method FindReaching(open: seq<Candidate>, end: nat) returns (k: nat)
    ensures k <= |open|
    ensures forall j | 0 <= j < k :: !AtLeast(open[j].0, end)
    ensures k < |open| ==> AtLeast(open[k].0, end)
  {
    k := 0;
    while k < |open| && !AtLeast(open[k].0, end)
      invariant k <= |open|
      invariant forall j | 0 <= j < k :: !AtLeast(open[j].0, end)
    {
      k := k + 1;
    }
  }

  /** First index whose upper end is beyond `upper`. */
  method FindBeyond(open: seq<Candidate>, upper: Option<nat>) returns (k: nat)
    ensures k <= |open|
    ensures forall j | 0 <= j < k :: UpperBefore(open[j].0, upper)
    ensures k < |open| ==> !UpperBefore(open[k].0, upper)
  {
    k := 0;
    while k < |open| && UpperBefore(open[k].0, upper)
      invariant k <= |open|
      invariant forall j | 0 <= j < k :: UpperBefore(open[j].0, upper)
    {
      k := k + 1;
    }
  }

  predicate EndsBefore(upper: Option<nat>, before: Option<nat>) {
    upper.Some? && (before.Some? ==> upper.value < before.value)
  }

  lemma CloseOne(steps: Steps, open: seq<Candidate>, seen: seq<Interval>, live: seq<Interval>, at: nat, k: nat)
    requires Swept(steps, open, seen, live, at)
    requires |open| > 0 && open[0].0.Some? && 0 < k <= |open|
    requires forall j | 0 <= j < k :: !AtLeast(open[j].0, open[0].0.value + 1)
    requires k < |open| ==> AtLeast(open[k].0, open[0].0.value + 1)
    ensures var end := open[0].0.value + 1;
            && at < end
            && !HasKey(steps, end)
            && Swept(steps + [(end, Indices(open[k..]))], open[k..], seen, live[k..], end)
  {
    var end := open[0].0.value + 1;
    assert live[0] in live && AtLeast(live[0].0.upper, at) && open[0] == Strip(live[0]);
    assert forall j | 0 <= j < |steps| :: steps[j].0 <= at;
    assert forall j | 0 <= j < |open[k..]| :: open[k..][j] == Strip(live[k..][j]);
    LiveAfterClosing(open, live, seen, at, k, end);
    NowContaining(open[k..], live[k..], seen, end);
    UpToClosing(steps, open, seen, live, at, end, Indices(open[k..]));
  }

  lemma UpToClosing(steps: Steps, open: seq<Candidate>, seen: seq<Interval>, live: seq<Interval>, at: nat,
                    end: nat, value: Candidates)
    requires Swept(steps, open, seen, live, at) && at < end
    requires |open| > 0 ==> AtLeast(open[0].0, end - 1)
    requires value == Containing(seen, end) && forall j | 0 <= j < |steps| :: steps[j].0 <= at
    ensures TableUpTo(steps + [(end, value)], seen, end)
  {
    forall x | 0 <= x <= end
      ensures ValueAt(steps + [(end, value)], {}, x) == Containing(seen, x)
    {
      ValueAtAppend(steps, {}, end, value, x);
      if at < x < end {
        SweptBetween(steps, open, seen, live, at, x);
      }
    }
  }

  /** The intervals that are left when the first `k` have ended. */
  lemma LiveAfterClosing(open: seq<Candidate>, live: seq<Interval>, seen: seq<Interval>, at: nat, k: nat, end: nat)
    requires Stripped(open, live) && Reaching(seen, live, at)
    requires k <= |open| && at <= end
    requires forall j | 0 <= j < k :: !AtLeast(open[j].0, end)
    requires k < |open| ==> AtLeast(open[k].0, end)
    ensures Reaching(seen, live[k..], end)
  {
    forall p
      ensures p in live[k..] <==> p in seen && AtLeast(p.0.upper, end)
    {
      if p in live[k..] {
        var j :| k <= j < |live| && live[j] == p;
        assert open[j] == Strip(p) && (k < j ==> UpperBefore(open[k].0, open[j].0));
        assert p in live;
      }
      if p in seen && AtLeast(p.0.upper, end) {
        assert p in live;
        var j :| 0 <= j < |live| && live[j] == p;
        assert open[j] == Strip(p);
        assert live[k..][j - k] == p;
      }
    }
  }

  /** closeCandidatesBefore; `before == None` stands for Infinity. */
  method CloseCandidatesBefore(steps: Steps, open: seq<Candidate>, before: Option<nat>,
                               ghost seen: seq<Interval>, ghost live: seq<Interval>, ghost at: nat)
    returns (steps': Steps, open': seq<Candidate>, ghost live': seq<Interval>, ghost at': nat)
    requires Swept(steps, open, seen, live, at)
    requires before.Some? && |steps| > 0 ==> at <= before.value
    ensures Swept(steps', open', seen, live', at')
    ensures |open'| > 0 ==> !EndsBefore(open'[0].0, before)
    ensures before.Some? && |steps'| > 0 ==> at' <= before.value
    ensures KeysOf(steps) <= KeysOf(steps')
  {
    steps', open', live', at' := steps, open, live, at;
    while |open'| > 0 && EndsBefore(open'[0].0, before)
      invariant Swept(steps', open', seen, live', at')
      invariant before.Some? && |steps'| > 0 ==> at' <= before.value
      invariant KeysOf(steps) <= KeysOf(steps')
      decreases |open'|
    {
      var end := open'[0].0.value + 1;
      var removeIndex := FindReaching(open', end);
      assert live'[0] in live';
      CloseOne(steps', open', seen, live', at', removeIndex);
      PutNew(steps', end, Indices(open'[removeIndex..]));
      KeysGrow(steps', end, Indices(open'[removeIndex..]));
      open' := open'[removeIndex..];
      steps' := Put(steps', end, Indices(open'));
      live', at' := live'[removeIndex..], end;
    }
  }

  ghost function KeysOf(steps: Steps): set<nat> {
    set e | e in steps :: e.0
  }

  lemma KeysGrow(steps: Steps, key: nat, value: Candidates)
    ensures KeysOf(steps + [(key, value)]) == KeysOf(steps) + {key}
  {
    var longer := steps + [(key, value)];
    assert (key, value) == longer[|steps|];
    assert (key, value) in longer;
    forall e <- steps
      ensures e in longer
    {
    }
  }

  function InsertAt<T>(s: seq<T>, k: nat, x: T): seq<T>
    requires k <= |s|
  {
    s[..k] + [x] + s[k..]
  }

  /** `steps` after recording `value` at `key`, which is the last key or lies beyond it. */
  function PutLast(steps: Steps, key: nat, value: Candidates): Steps {
    if |steps| > 0 && steps[|steps| - 1].0 == key then steps[..|steps| - 1] + [(key, value)]
    else steps + [(key, value)]
  }

  lemma PutIsPutLast(steps: Steps, key: nat, value: Candidates)
    requires Ascending(steps) && (|steps| > 0 ==> steps[|steps| - 1].0 <= key)
    ensures Put(steps, key, value) == PutLast(steps, key, value)
    ensures Ascending(PutLast(steps, key, value))
    ensures KeysOf(PutLast(steps, key, value)) == KeysOf(steps) + {key}
  {
    var n := |steps| - 1;
    if n >= 0 && steps[n].0 == key {
      ReplaceLast(steps, value);
    } else {
      assert forall j | 0 <= j < |steps| :: steps[j].0 < key;
      PutNew(steps, key, value);
      KeysGrow(steps, key, value);
    }
  }

  lemma ReplaceLast(steps: Steps, value: Candidates)
    requires Ascending(steps) && |steps| > 0
    ensures var n := |steps| - 1;
            var steps' := steps[..n] + [(steps[n].0, value)];
            Put(steps, steps[n].0, value) == steps' && Ascending(steps') && KeysOf(steps') == KeysOf(steps)
  {
    var n := |steps| - 1;
    AscendingDistinct(steps);
    PutAt(steps, n, value);
    assert steps[n := (steps[n].0, value)] == steps[..n] + [(steps[n].0, value)];
    KeysGrow(steps[..n], steps[n].0, value);
    KeysGrow(steps[..n], steps[n].0, steps[n].1);
    assert steps[..n] + [steps[n]] == steps;
  }

  /** Recording at `key` leaves every value before `key` alone. */
  lemma ValueAtPutLast(steps: Steps, key: nat, value: Candidates, start: Candidates, x: nat)
    requires Ascending(steps) && (|steps| > 0 ==> steps[|steps| - 1].0 <= key)
    ensures ValueAt(PutLast(steps, key, value), start, x) == if x < key then ValueAt(steps, start, x) else value
  {
    var n := |steps| - 1;
    if n >= 0 && steps[n].0 == key {
      ValueAtAppend(steps[..n], start, key, value, x);
      ValueAtAppend(steps[..n], start, key, steps[n].1, x);
      assert steps[..n] + [steps[n]] == steps;
    } else {
      ValueAtAppend(steps, start, key, value, x);
    }
  }

  lemma InsertKeepsOrder(open: seq<Candidate>, k: nat, c: Candidate)
    requires SortedByUpper(open) && k <= |open|
    requires forall j | 0 <= j < k :: UpperBefore(open[j].0, c.0)
    requires k < |open| ==> !UpperBefore(open[k].0, c.0)
    ensures SortedByUpper(InsertAt(open, k, c))
  {
    var longer := InsertAt(open, k, c);
    forall i, j | 0 <= i < j < |longer|
      ensures UpperBefore(longer[i].0, longer[j].0)
    {
      var i', j' := if i < k then i else i - 1, if j < k then j else j - 1;
      if i == k {
        assert k < |open| && longer[j] == open[j'] && (k < j' ==> UpperBefore(open[k].0, open[j'].0));
      } else if j == k {
        assert longer[i] == open[i];
      } else {
        assert longer[i] == open[i'] && longer[j] == open[j'];
      }
    }
  }

  lemma StrippedAfterOpening(open: seq<Candidate>, live: seq<Interval>, p: Interval, k: nat)
    requires Stripped(open, live) && k <= |open|
    requires forall j | 0 <= j < k :: UpperBefore(open[j].0, p.0.upper)
    requires k < |open| ==> !UpperBefore(open[k].0, p.0.upper)
    ensures Stripped(InsertAt(open, k, Strip(p)), InsertAt(live, k, p))
  {
    InsertKeepsOrder(open, k, Strip(p));
    var open', live' := InsertAt(open, k, Strip(p)), InsertAt(live, k, p);
    assert forall j | 0 <= j < |open'| :: open'[j] == Strip(live'[j]);
  }

  lemma OpenOne(steps: Steps, open: seq<Candidate>, seen: seq<Interval>, live: seq<Interval>, at: nat,
                p: Interval, k: nat)
    requires Swept(steps, open, seen, live, at)
    requires AtLeast(p.0.upper, p.0.lower)
    requires |steps| > 0 ==> at <= p.0.lower
    requires |open| > 0 ==> AtLeast(open[0].0, p.0.lower)
    requires k <= |open|
    requires forall j | 0 <= j < k :: UpperBefore(open[j].0, p.0.upper)
    requires k < |open| ==> !UpperBefore(open[k].0, p.0.upper)
    ensures var open' := InsertAt(open, k, Strip(p));
            Swept(PutLast(steps, p.0.lower, Indices(open')), open', seen + [p], InsertAt(live, k, p), p.0.lower)
  {
    var at', open', live' := p.0.lower, InsertAt(open, k, Strip(p)), InsertAt(live, k, p);
    PutIsPutLast(steps, at', Indices(open'));
    StrippedAfterOpening(open, live, p, k);
    LiveReaches(open, live, at');
    LiveAfterOpening(steps, seen, live, at, p, k);
    NowContaining(open', live', seen + [p], at');
    UpToOpening(steps, open, seen, live, at, p, Indices(open'));
  }

  lemma UpToOpening(steps: Steps, open: seq<Candidate>, seen: seq<Interval>, live: seq<Interval>, at: nat,
                    p: Interval, value: Candidates)
    requires Swept(steps, open, seen, live, at)
    requires |steps| > 0 ==> at <= p.0.lower
    requires |open| > 0 ==> AtLeast(open[0].0, p.0.lower)
    requires value == Containing(seen + [p], p.0.lower)
    ensures TableUpTo(PutLast(steps, p.0.lower, value), seen + [p], p.0.lower)
  {
    forall x | 0 <= x <= p.0.lower
      ensures ValueAt(PutLast(steps, p.0.lower, value), {}, x) == Containing(seen + [p], x)
    {
      ValueAtPutLast(steps, p.0.lower, value, {}, x);
      if x < p.0.lower {
        BeforeOpening(steps, open, seen, live, at, p, x);
      }
    }
  }

  lemma LiveReaches(open: seq<Candidate>, live: seq<Interval>, x: nat)
    requires Stripped(open, live) && (|open| > 0 ==> AtLeast(open[0].0, x))
    ensures forall q <- live :: AtLeast(q.0.upper, x)
  {
    forall q | q in live
      ensures AtLeast(q.0.upper, x)
    {
      var j :| 0 <= j < |live| && live[j] == q;
      assert open[j] == Strip(q) && (j > 0 ==> UpperBefore(open[0].0, open[j].0));
    }
  }

  lemma NowContaining(open: seq<Candidate>, live: seq<Interval>, seen: seq<Interval>, at: nat)
    requires Stripped(open, live) && Reaching(seen, live, at)
    ensures Indices(open) == Containing(seen, at)
  {
    IndicesOfLive(open, live);
    assert forall p <- seen :: p.0.Contains(at) <==> p in live;
  }

  lemma BeforeOpening(steps: Steps, open: seq<Candidate>, seen: seq<Interval>, live: seq<Interval>, at: nat,
                      p: Interval, x: nat)
    requires Swept(steps, open, seen, live, at) && x < p.0.lower
    requires |open| > 0 ==> AtLeast(open[0].0, p.0.lower)
    ensures ValueAt(steps, {}, x) == Containing(seen + [p], x)
  {
    if at < x {
      SweptBetween(steps, open, seen, live, at, x);
    }
    assert forall q :: q in seen + [p] <==> q in seen || q == p;
    assert Containing(seen + [p], x) == Containing(seen, x);
  }

  lemma LiveAfterOpening(steps: Steps, seen: seq<Interval>, live: seq<Interval>, at: nat, p: Interval, k: nat)
    requires |steps| == 0 ==> seen == []
    requires |steps| > 0 ==> at <= p.0.lower
    requires AtLeast(p.0.upper, p.0.lower) && k <= |live|
    requires Reaching(seen, live, at)
    requires forall q <- live :: AtLeast(q.0.upper, p.0.lower)
    ensures Reaching(seen + [p], InsertAt(live, k, p), p.0.lower)
  {
    assert live == live[..k] + live[k..];
    assert forall q :: q in InsertAt(live, k, p) <==> q in live || q == p;
    assert forall q :: q in seen + [p] <==> q in seen || q == p;
  }

  /** One round of the loop: the sweep line moves to the lower end of `p`, which is then open. */
  method OpenInterval(steps: Steps, open: seq<Candidate>, p: Interval,
                      ghost seen: seq<Interval>, ghost live: seq<Interval>, ghost at: nat)
    returns (steps': Steps, open': seq<Candidate>, ghost live': seq<Interval>)
    requires Swept(steps, open, seen, live, at)
    requires AtLeast(p.0.upper, p.0.lower) && (|steps| > 0 ==> at <= p.0.lower)
    ensures Swept(steps', open', seen + [p], live', p.0.lower) && |steps'| > 0
    ensures KeysOf(steps) + {p.0.lower} <= KeysOf(steps')
  {
    ghost var at';
    steps', open', live', at' := CloseCandidatesBefore(steps, open, Some(p.0.lower), seen, live, at);
    var insertIndex := FindBeyond(open', p.0.upper);
    OpenOne(steps', open', seen, live', at', p, insertIndex);
    open' := InsertAt(open', insertIndex, Strip(p));
    live' := InsertAt(live', insertIndex, p);
    PutIsPutLast(steps', p.0.lower, Indices(open'));
    steps' := Put(steps', p.0.lower, Indices(open'));
  }

  ghost predicate LowersAreKeys(s: seq<Interval>, steps: Steps) {
    forall p <- s :: p.0.lower in KeysOf(steps)
  }

  lemma OneMoreKey(s: seq<Interval>, p: Interval, steps: Steps, steps': Steps)
    requires LowersAreKeys(s, steps) && KeysOf(steps) + {p.0.lower} <= KeysOf(steps')
    ensures LowersAreKeys(s + [p], steps')
  {
  }

  /**
   * buildAscendingBounds: for every list of bounds sorted by lower end, the keys ascend, every lower
   * end is a key, and the value at any size is exactly the set of layouts whose bounds contain it.
   */
  method BuildAscendingBounds(sortedBounds: seq<Interval>) returns (steps: Steps)
    requires SortedByLower(sortedBounds) && ProperBounds(sortedBounds)
    ensures Ascending(steps)
    ensures LowersAreKeys(sortedBounds, steps)
    ensures forall x: nat :: ValueAt(steps, {}, x) == Containing(sortedBounds, x)
  {
    var open: seq<Candidate> := [];
    ghost var live: seq<Interval> := [];
    ghost var at: nat := 0;
    steps := [];
    for i := 0 to |sortedBounds|
      invariant Swept(steps, open, sortedBounds[..i], live, at)
      invariant i > 0 ==> at == sortedBounds[i - 1].0.lower
      invariant i == 0 ==> |steps| == 0
      invariant LowersAreKeys(sortedBounds[..i], steps)
    {
      assert i > 0 ==> sortedBounds[i - 1].0.lower <= sortedBounds[i].0.lower;
      ghost var earlier := steps;
      steps, open, live := OpenInterval(steps, open, sortedBounds[i], sortedBounds[..i], live, at);
      at := sortedBounds[i].0.lower;
      assert sortedBounds[..i] + [sortedBounds[i]] == sortedBounds[..i + 1];
      OneMoreKey(sortedBounds[..i], sortedBounds[i], earlier, steps);
    }
    assert sortedBounds[..|sortedBounds|] == sortedBounds;
    steps, open, live, at := CloseCandidatesBefore(steps, open, None, sortedBounds, live, at);
    forall x: nat
      ensures ValueAt(steps, {}, x) == Containing(sortedBounds, x)
    {
      if at < x {
        SweptBetween(steps, open, sortedBounds, live, at, x);
      }
    }
  }
}
