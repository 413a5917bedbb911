// discriminate.ts: sets of layouts as the bits of an unbounded bigint. The discriminator is modelled
// on sets of indices; this module shows that the source's operations on bits are those on sets.
module Bitset {
  import opened Sweep
  import opened Knowledge
  import opened ByteSteps
  import opened Strategies
  import opened Discriminate

  /** `(b >> i) & 1n` */
  predicate Bit(b: nat, i: nat) {
    if i == 0 then b % 2 == 1 else Bit(b / 2, i - 1)
  }

  /** `1n << BigInt(i)` */
  function Shifted(i: nat): (r: nat)
    ensures r >= 1
  {
    if i == 0 then 1 else 2 * Shifted(i - 1)
  }

  function LowBit(b: bool): nat {
    if b then 1 else 0
  }

  function And(a: nat, b: nat): nat {
    if a == 0 || b == 0 then 0 else 2 * And(a / 2, b / 2) + LowBit(a % 2 == 1 && b % 2 == 1)
  }

  function Or(a: nat, b: nat): nat {
    if a == 0 then b else if b == 0 then a else 2 * Or(a / 2, b / 2) + LowBit(a % 2 == 1 || b % 2 == 1)
  }

  function BitXor(a: nat, b: nat): nat {
    if a == 0 then b else if b == 0 then a else 2 * BitXor(a / 2, b / 2) + LowBit(a % 2 != b % 2)
  }

  lemma {:induction false} NoBits(i: nat)
    ensures !Bit(0, i)
  {
    if i > 0 {
      NoBits(i - 1);
    }
  }

  lemma {:induction false} BitOfAnd(a: nat, b: nat, i: nat)
    ensures Bit(And(a, b), i) <==> Bit(a, i) && Bit(b, i)
  {
    NoBits(i);
    if a != 0 && b != 0 && i > 0 {
      BitOfAnd(a / 2, b / 2, i - 1);
      assert And(a, b) / 2 == And(a / 2, b / 2);
    }
  }

  lemma {:induction false} BitOfOr(a: nat, b: nat, i: nat)
    ensures Bit(Or(a, b), i) <==> Bit(a, i) || Bit(b, i)
  {
    NoBits(i);
    if a != 0 && b != 0 && i > 0 {
      BitOfOr(a / 2, b / 2, i - 1);
      assert Or(a, b) / 2 == Or(a / 2, b / 2);
    }
  }

  lemma {:induction false} BitOfXor(a: nat, b: nat, i: nat)
    ensures Bit(BitXor(a, b), i) <==> Bit(a, i) != Bit(b, i)
  {
    NoBits(i);
    if a != 0 && b != 0 && i > 0 {
      BitOfXor(a / 2, b / 2, i - 1);
      assert BitXor(a, b) / 2 == BitXor(a / 2, b / 2);
    }
  }

  lemma {:induction false} BitOfShifted(n: nat, i: nat)
    ensures Bit(Shifted(n), i) <==> i == n
  {
    if n == 0 && i > 0 {
      NoBits(i - 1);
    } else if n > 0 && i > 0 {
      BitOfShifted(n - 1, i - 1);
      assert Shifted(n) / 2 == Shifted(n - 1);
    }
  }

  /** The bits of `b` are the elements of `s`. */
  ghost predicate Encodes(b: nat, s: Candidates) {
    forall i: nat :: Bit(b, i) <==> i in s
  }

  /** A bitset has one meaning only. */
  lemma {:induction false} BitsDetermine(a: nat, b: nat)
    requires forall i: nat :: Bit(a, i) <==> Bit(b, i)
    ensures a == b
  {
    assert Bit(a, 0) <==> Bit(b, 0);
    if a != 0 || b != 0 {
      forall i: nat
        ensures Bit(a / 2, i) <==> Bit(b / 2, i)
      {
        assert Bit(a, i + 1) <==> Bit(b, i + 1);
      }
      BitsDetermine(a / 2, b / 2);
    }
  }

  /** `&`, `|` and `^` are intersection, union and symmetric difference. */
  lemma BitwiseIsSetwise(a: nat, s: Candidates, b: nat, t: Candidates)
    requires Encodes(a, s) && Encodes(b, t)
    ensures Encodes(And(a, b), s * t)
    ensures Encodes(Or(a, b), s + t)
    ensures Encodes(BitXor(a, b), Xor(s, t))
  {
    forall i: nat
      ensures Bit(And(a, b), i) <==> i in s * t
      ensures Bit(Or(a, b), i) <==> i in s + t
      ensures Bit(BitXor(a, b), i) <==> i in Xor(s, t)
    {
      BitOfAnd(a, b, i);
      BitOfOr(a, b, i);
      BitOfXor(a, b, i);
    }
  }

  /** `candidates ^= candidates & cands` removes `cands`. */
  lemma RemoveIsDifference(a: nat, s: Candidates, b: nat, t: Candidates)
    requires Encodes(a, s) && Encodes(b, t)
    ensures Encodes(BitXor(a, And(a, b)), s - t)
  {
    BitwiseIsSetwise(a, s, b, t);
    BitwiseIsSetwise(a, s, And(a, b), s * t);
    assert Xor(s, s * t) == s - t;
  }

  /** `(candidates & larger) == candidates` tests for a subset. */
  lemma SubsetTest(a: nat, s: Candidates, b: nat, t: Candidates)
    requires Encodes(a, s) && Encodes(b, t)
    ensures And(a, b) == a <==> s <= t
  {
    BitwiseIsSetwise(a, s, b, t);
    if And(a, b) == a {
      forall i | i in s
        ensures i in t
      {
        assert Bit(And(a, b), i);
      }
    }
    if s <= t {
      assert s * t == s;
      BitsDetermine(And(a, b), a);
    }
  }

  /** `(1n << BigInt(n)) - 1n` */
  lemma AllOnes(n: nat)
    ensures Encodes(Shifted(n) - 1, FirstLayouts(n))
  {
    var ones := Shifted(n) - 1;
    forall i: nat
      ensures Bit(ones, i) <==> i in FirstLayouts(n)
    {
      BitOfAllOnes(n, i);
    }
  }

  lemma {:induction false} BitOfAllOnes(n: nat, i: nat)
    ensures Bit(Shifted(n) - 1, i) <==> i < n
  {
    if n == 0 {
      NoBits(i);
    } else if i > 0 {
      assert (Shifted(n) - 1) / 2 == Shifted(n - 1) - 1;
      BitOfAllOnes(n - 1, i - 1);
    }
  }

  // ---- the helpers ------------------------------------------------------------------------

  /** arrayToBitset: a fold over the array. */
  function ArrayToBitset(arr: seq<nat>): nat {
    if |arr| == 0 then 0 else Or(ArrayToBitset(arr[..|arr| - 1]), Shifted(arr[|arr| - 1]))
  }

  lemma {:induction false} ArrayToBitsetEncodes(arr: seq<nat>)
    ensures Encodes(ArrayToBitset(arr), set i | i in arr)
  {
    var elements := set i | i in arr;
    if |arr| == 0 {
      forall i: nat
        ensures !Bit(0, i)
      {
        NoBits(i);
      }
    } else {
      var front, last := arr[..|arr| - 1], arr[|arr| - 1];
      ArrayToBitsetEncodes(front);
      forall i: nat
        ensures Bit(Shifted(last), i) <==> i in {last}
      {
        BitOfShifted(last, i);
      }
      BitwiseIsSetwise(ArrayToBitset(front), (set i | i in front), Shifted(last), {last});
      assert arr == front + [last];
      assert elements == (set i | i in front) + {last};
    }
  }

  /** What is left of `b` after `i` shifts. */
  function ShiftedDown(b: nat, i: nat): nat {
    if i == 0 then b else ShiftedDown(b, i - 1) / 2
  }

  lemma {:induction false} BitOfShiftedDown(b: nat, i: nat, j: nat)
    ensures Bit(ShiftedDown(b, i), j) <==> Bit(b, i + j)
  {
    if i > 0 {
      BitOfShiftedDown(b, i - 1, j + 1);
    }
  }

  /** The set bits, in ascending order, each once. */
  ghost predicate Lists(r: seq<nat>, b: nat, below: nat) {
    && (forall i, j | 0 <= i < j < |r| :: r[i] < r[j])
    && (forall i: nat :: i in r <==> Bit(b, i) && i < below)
  }

  method BitsetToArray(bitset: nat) returns (ret: seq<nat>)
    ensures forall i, j | 0 <= i < j < |ret| :: ret[i] < ret[j]
    ensures forall i: nat :: i in ret <==> Bit(bitset, i)
  {
    ret := [];
    var i, rest := 0, bitset;
    while rest > 0
      invariant rest == ShiftedDown(bitset, i)
      invariant Lists(ret, bitset, i)
      decreases rest
    {
      BitOfShiftedDown(bitset, i, 0);
      assert forall k | 0 <= k < |ret| :: ret[k] in ret;
      if rest % 2 == 1 {
        ret := ret + [i];
      }
      rest, i := rest / 2, i + 1;
    }
    forall j: nat
      ensures j in ret <==> Bit(bitset, j)
    {
      if j >= i {
        BitOfShiftedDown(bitset, i, j - i);
        NoBits(j - i);
      }
    }
  }

  method Count(candidates: nat) returns (count: nat)
    ensures forall s | Encodes(candidates, s) :: count == |s|
  {
    count := 0;
    var i, rest := 0, candidates;
    while rest > 0
      invariant rest == ShiftedDown(candidates, i)
      invariant forall s | Encodes(candidates, s) :: count == |Below(s, i)|
      decreases rest
    {
      BitOfShiftedDown(candidates, i, 0);
      forall s | Encodes(candidates, s)
        ensures |Below(s, i + 1)| == |Below(s, i)| + if Bit(candidates, i) then 1 else 0
      {
        BelowNext(s, i);
        assert Bit(candidates, i) <==> i in s;
      }
      count := count + rest % 2;
      rest, i := rest / 2, i + 1;
    }
    forall s | Encodes(candidates, s)
      ensures count == |s|
    {
      forall j | j in s
        ensures j < i
      {
        assert Bit(candidates, j);
        if j >= i {
          BitOfShiftedDown(candidates, i, j - i);
          NoBits(j - i);
        }
      }
      assert Below(s, i) == s;
    }
  }

  function Below(s: Candidates, n: nat): Candidates {
    set i | i in s && i < n
  }

  lemma BelowNext(s: Candidates, n: nat)
    ensures |Below(s, n + 1)| == |Below(s, n)| + if n in s then 1 else 0
  {
    if n in s {
      assert Below(s, n + 1) == Below(s, n) + {n};
    } else {
      assert Below(s, n + 1) == Below(s, n);
    }
  }

  lemma BothEmptyOrNeither(a: seq<nat>, b: seq<nat>)
    requires forall x: nat :: x in a <==> x in b
    ensures |a| == 0 <==> |b| == 0
  {
    if |a| > 0 {
      assert a[0] in b;
    }
    if |b| > 0 {
      assert b[0] in a;
    }
  }

  /** An ascending list is determined by its elements. */
  lemma {:induction false} AscendingIsUnique(a: seq<nat>, b: seq<nat>)
    requires forall i, j | 0 <= i < j < |a| :: a[i] < a[j]
    requires forall i, j | 0 <= i < j < |b| :: b[i] < b[j]
    requires forall x: nat :: x in a <==> x in b
    ensures a == b
  {
    BothEmptyOrNeither(a, b);
    if |a| > 0 {
      assert a[0] in b;
      assert b[0] in a;
      assert a[0] == b[0];
      var c, d := a[1..], b[1..];
      forall x: nat
        ensures x in c <==> x in d
      {
        if x in c {
          var i :| 0 <= i < |c| && c[i] == x;
          assert a[i + 1] == x && x in b && x != b[0];
        }
        if x in d {
          var i :| 0 <= i < |d| && d[i] == x;
          assert b[i + 1] == x && x in a && x != a[0];
        }
      }
      AscendingIsUnique(c, d);
      assert a == [a[0]] + c && b == [b[0]] + d;
    }
  }

  lemma {:induction false} ToArrayAscends(s: Candidates, n: nat)
    ensures forall i, j | 0 <= i < j < |ToArray(s, n)| :: ToArray(s, n)[i] < ToArray(s, n)[j]
  {
    if n > 0 {
      ToArrayAscends(s, n - 1);
      var front := ToArray(s, n - 1);
      assert forall i | 0 <= i < |front| :: front[i] in front;
    }
  }

  /** bitsetToArray lists the layouts as the discriminator of the model does. */
  lemma BitsetToArrayIsToArray(b: nat, s: Candidates, n: nat, ret: seq<nat>)
    requires Encodes(b, s) && forall i <- s :: i < n
    requires forall i, j | 0 <= i < j < |ret| :: ret[i] < ret[j]
    requires forall i: nat :: i in ret <==> Bit(b, i)
    ensures ret == ToArray(s, n)
  {
    ToArrayAscends(s, n);
    AscendingIsUnique(ret, ToArray(s, n));
  }

  /** Packing an array and unpacking it again sorts it and drops duplicates. */
  method PackAndUnpack(arr: seq<nat>) returns (ret: seq<nat>)
    ensures forall i, j | 0 <= i < j < |ret| :: ret[i] < ret[j]
    ensures forall i: nat :: i in ret <==> i in arr
  {
    ret := BitsetToArray(ArrayToBitset(arr));
    ArrayToBitsetEncodes(arr);
  }
}
