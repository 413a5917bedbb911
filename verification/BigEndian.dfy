// Big-endian digits in base 256, the byte order of every uint and length prefix.
module BigEndian {
  import opened Common

  function Pow256(n: nat): (p: nat)
    ensures p >= 1
  {
    if n == 0 then 1 else 256 * Pow256(n - 1)
  }

  /** The `n` low-order digits of `v`, most significant first. */
  function Digits(v: nat, n: nat): (bs: bytes)
    ensures |bs| == n
  {
    if n == 0 then [] else Digits(v / 256, n - 1) + [v % 256]
  }

  /** The number whose digits are `bs`. */
  function Number(bs: bytes): (v: nat)
    ensures v < Pow256(|bs|)
  {
    if bs == [] then 0
    else
      var front := bs[..|bs| - 1];
      assert Number(front) < Pow256(|front|);
      Number(front) * 256 + bs[|bs| - 1]
  }

  lemma {:induction false} NumberOfDigits(v: nat, n: nat)
    requires v < Pow256(n)
    ensures Number(Digits(v, n)) == v
  {
    if n > 0 {
      NumberOfDigits(v / 256, n - 1);
      assert Digits(v, n)[..n - 1] == Digits(v / 256, n - 1);
    }
  }

  lemma {:induction false} DigitsOfNumber(bs: bytes)
    ensures Digits(Number(bs), |bs|) == bs
  {
    if bs != [] {
      var front := bs[..|bs| - 1];
      DigitsOfNumber(front);
      assert Number(bs) / 256 == Number(front) && Number(bs) % 256 == bs[|bs| - 1];
      assert front + [bs[|bs| - 1]] == bs;
    }
  }

  lemma PowMonotone(m: nat, n: nat)
    requires m <= n
    ensures Pow256(m) <= Pow256(n)
  {
    if m < n {
      PowMonotone(m, n - 1);
    }
  }

  /** Digit `i` is what shifting right by whole bytes and masking with 0xff gives. */
  lemma {:induction false} DigitAt(v: nat, n: nat, i: nat)
    requires i < n
    ensures Digits(v, n)[i] == v / Pow256(n - 1 - i) % 256
  {
    if i < n - 1 {
      DigitAt(v / 256, n - 1, i);
      assert Digits(v, n)[i] == Digits(v / 256, n - 1)[i];
      DivDiv(v, Pow256(n - 2 - i));
    }
  }

  lemma DivDiv(v: nat, p: nat)
    requires p > 0
    ensures v / 256 / p == v / (256 * p)
  {
    var q := v / 256;
    var k := q / p;
    assert q == k * p + q % p;
    assert v == 256 * q + v % 256;
    assert v == k * (256 * p) + (256 * (q % p) + v % 256);
    assert 256 * (q % p) + v % 256 < 256 * p;
    QuotientIs(v, 256 * p, k, 256 * (q % p) + v % 256);
  }

  lemma QuotientIs(v: nat, d: nat, k: nat, r: nat)
    requires d > 0 && v == k * d + r && r < d
    ensures v / d == k
  {
    var k', r' := v / d, v % d;
    Distribute(k', k, d);
    if k < k' {
      AtLeastOnce(k' - k, d);
    } else if k' < k {
      AtLeastOnce(k - k', d);
      Distribute(k, k', d);
    }
  }

  lemma Distribute(a: int, b: int, d: int)
    ensures (a - b) * d == a * d - b * d
  {
  }

  lemma AtLeastOnce(a: nat, d: nat)
    requires a >= 1
    ensures a * d >= d
  {
    Distribute(a, 1, d);
  }
}
