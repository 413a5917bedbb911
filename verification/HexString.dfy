// hexstring.ts: byte arrays as strings of hexadecimal digits (base16, section 8 of RFC 4648, in lower
// case), with an optional two-character prefix.
module HexString {
  import opened Common

  function DigitVal(c: char): (r: Option<nat>)
    ensures r.Some? ==> r.value < 16
  {
    if '0' <= c <= '9' then Some(c as int - '0' as int)
    else if 'A' <= c <= 'F' then Some(c as int - 'A' as int + 10)
    else if 'a' <= c <= 'f' then Some(c as int - 'a' as int + 10)
    else None
  }

  function Digit(v: nat): (c: char)
    requires v < 16
    ensures DigitVal(c) == Some(v)
  {
    if v < 10 then ('0' as int + v) as char else ('a' as int + v - 10) as char
  }

  function LowerChar(c: char): char {
    if 'A' <= c <= 'Z' then (c as int - 'A' as int + 'a' as int) as char else c
  }

  function Lower(s: string): (r: string)
    ensures |r| == |s|
  {
    seq(|s|, i requires 0 <= i < |s| => LowerChar(s[i]))
  }

  // ---- printing ---------------------------------------------------------------------------

  /** `byte.toString(16)` */
  function ToString16(b: byte): string {
    if b < 16 then [Digit(b)] else [Digit(b / 16), Digit(b % 16)]
  }

  function PadStart(s: string, length: nat, fill: char): string {
    seq(if |s| < length then length - |s| else 0, _ => fill) + s
  }

  function HexDigits(arr: bytes): string {
    if |arr| == 0 then "" else PadStart(ToString16(arr[0]), 2, '0') + HexDigits(arr[1..])
  }

  function Uint8ArrayToHexByteString(arr: bytes, addPrefix: bool): string {
    (if addPrefix then "0x" else "") + HexDigits(arr)
  }

  lemma TwoDigits(b: byte)
    ensures PadStart(ToString16(b), 2, '0') == [Digit(b / 16), Digit(b % 16)]
  {
  }

  // ---- parsing ----------------------------------------------------------------------------

  function Pairs(s: string): Option<bytes>
    requires |s| % 2 == 0
  {
    if |s| == 0 then Some([])
    else
      match (DigitVal(s[0]), DigitVal(s[1]), Pairs(s[2..]))
      case (Some(high), Some(low), Some(rest)) => Some([high * 16 + low] + rest)
      case _ => None
  }

  function PrefixOffset(s: string): (r: nat)
    ensures r <= |s|
  {
    if |s| > 2 && s[1] == 'x' then 2 else 0
  }

  /** What hexByteStringToUint8Array returns. */
  function Decode(s: string): Result<bytes> {
    if |s| % 2 != 0 then Err(Invalid("odd length"))
    else
      match Pairs(s[PrefixOffset(s)..])
      case Some(arr) => Ok(arr)
      case None => Err(Invalid("not a hex char"))
  }

  /** `done` followed by what is left to parse. */
  function DoneAnd(done: bytes, rest: Option<bytes>): Option<bytes> {
    if rest.Some? then Some(done + rest.value) else None
  }

  lemma NextPair(done: bytes, s: string)
    requires |s| % 2 == 0 && |s| > 0
    ensures DigitVal(s[0]).None? || DigitVal(s[1]).None? ==> DoneAnd(done, Pairs(s)) == None
    ensures DigitVal(s[0]).Some? && DigitVal(s[1]).Some? ==>
              DoneAnd(done, Pairs(s)) == DoneAnd(done + [DigitVal(s[0]).value * 16 + DigitVal(s[1]).value], Pairs(s[2..]))
  {
    if Pairs(s).Some? {
      var v := DigitVal(s[0]).value * 16 + DigitVal(s[1]).value;
      assert Pairs(s) == Some([v] + Pairs(s[2..]).value);
      Associate(done, [v], Pairs(s[2..]).value);
    }
  }

  /** `done` is what the digits from `start` up to `i` stand for. */
  ghost predicate UpTo(str: string, start: nat, i: nat, done: bytes) {
    && start <= i <= |str| && i == start + 2 * |done| && (|str| - start) % 2 == 0
    && Pairs(str[start..]) == DoneAnd(done, Pairs(str[i..]))
  }

  lemma NothingDone(str: string, start: nat)
    requires start <= |str| && (|str| - start) % 2 == 0
    ensures UpTo(str, start, start, [])
  {
    var all := Pairs(str[start..]);
    assert all.Some? ==> [] + all.value == all.value;
  }

  lemma PairDone(str: string, start: nat, i: nat, done: bytes)
    requires UpTo(str, start, i, done) && i < |str|
    ensures i + 1 < |str|
    ensures DigitVal(str[i]).None? || DigitVal(str[i + 1]).None? ==> Pairs(str[start..]) == None
    ensures DigitVal(str[i]).Some? && DigitVal(str[i + 1]).Some? ==>
              UpTo(str, start, i + 2, done + [DigitVal(str[i]).value * 16 + DigitVal(str[i + 1]).value])
  {
    NextPair(done, str[i..]);
    assert str[i..][2..] == str[i + 2..];
  }

  lemma AllDone(str: string, start: nat, done: bytes)
    requires UpTo(str, start, |str|, done)
    ensures Pairs(str[start..]) == Some(done)
  {
    assert done + [] == done;
  }

  method HexByteStringToUint8Array(str: string) returns (r: Result<bytes>)
    ensures r == Decode(str)
  {
    if |str| % 2 != 0 {
      return Err(Invalid("odd length"));
    }
    var prefixOffset := PrefixOffset(str);
    var ret := new byte[(|str| - prefixOffset) / 2](_ => 0);
    var i := prefixOffset;
    ghost var done: bytes := [];
    NothingDone(str, prefixOffset);
    while i < |str|
      invariant UpTo(str, prefixOffset, i, done)
      invariant ret[..|done|] == done
    {
      PairDone(str, prefixOffset, i, done);
      var high, low := DigitVal(str[i]), DigitVal(str[i + 1]);
      if high.None? || low.None? {
        return Err(Invalid("not a hex char"));
      }
      ret[(i - prefixOffset) / 2] := high.value * 16 + low.value;
      done := done + [high.value * 16 + low.value];
      i := i + 2;
    }
    AllDone(str, prefixOffset, done);
    assert ret[..] == ret[..|done|];
    return Ok(ret[..]);
  }

  predicate IsHex(str: string, expectedBytes: Option<nat>) {
    var start := if |str| > 1 && str[1] == 'x' then 2 else 0;
    && |str| % 2 == 0
    && (expectedBytes.Some? ==> |str| - start == 2 * expectedBytes.value)
    && forall i | start <= i < |str| :: DigitVal(str[i]).Some?
  }

  method IsHexByteString(str: string, expectedBytes: Option<nat>) returns (r: bool)
    ensures r <==> IsHex(str, expectedBytes)
  {
    var i := if |str| > 1 && str[1] == 'x' then 2 else 0;
    if |str| % 2 != 0 || (expectedBytes.Some? && |str| - i != 2 * expectedBytes.value) {
      return false;
    }
    ghost var start := i;
    while i < |str|
      invariant start <= i <= |str|
      invariant forall j | start <= j < i :: DigitVal(str[j]).Some?
    {
      if DigitVal(str[i]).None? {
        return false;
      }
      i := i + 1;
    }
    return true;
  }

  // ---- the laws ---------------------------------------------------------------------------

  lemma {:induction false} PairsUndoesDigits(arr: bytes)
    ensures |HexDigits(arr)| == 2 * |arr| && Pairs(HexDigits(arr)) == Some(arr)
    ensures forall i | 0 <= i < |HexDigits(arr)| :: HexDigits(arr)[i] != 'x'
  {
    if |arr| > 0 {
      PairsUndoesDigits(arr[1..]);
      TwoDigits(arr[0]);
      assert HexDigits(arr)[2..] == HexDigits(arr[1..]);
      assert [arr[0]] + arr[1..] == arr;
    }
  }

  /** Parsing undoes printing, but for the prefixed form of the empty array: "0x" does not parse. */
  lemma DecodeUndoesPrint(arr: bytes, addPrefix: bool)
    ensures Decode(Uint8ArrayToHexByteString(arr, addPrefix)) == Ok(arr) <==> !(addPrefix && arr == [])
  {
    var s := Uint8ArrayToHexByteString(arr, addPrefix);
    PairsUndoesDigits(arr);
    if addPrefix && arr == [] {
      assert s == "0x" && DigitVal(s[1]) == None;
    } else if addPrefix {
      assert s[2..] == HexDigits(arr);
    } else {
      assert s[0..] == HexDigits(arr);
    }
  }

  lemma {:induction false} PairsJustIfDigits(s: string)
    requires |s| % 2 == 0
    ensures Pairs(s).Some? <==> forall i | 0 <= i < |s| :: DigitVal(s[i]).Some?
    ensures Pairs(s).Some? ==> |Pairs(s).value| == |s| / 2
  {
    if |s| > 0 {
      PairsJustIfDigits(s[2..]);
      assert forall i | 2 <= i < |s| :: s[i] == s[2..][i - 2];
    }
  }

  /** Upper and lower case digits stand for the same bytes. */
  lemma {:induction false} CaseDoesNotMatter(s: string)
    requires |s| % 2 == 0
    ensures Pairs(Lower(s)) == Pairs(s)
  {
    if |s| > 0 {
      CaseDoesNotMatter(s[2..]);
      assert Lower(s)[2..] == Lower(s[2..]);
    }
  }

  /**
   * isHexByteString tells exactly which strings parse, except that it also accepts the two-character
   * strings that end in 'x'; and the parsed array has half as many bytes as there are digits.
   */
  lemma ParsesJustIfHex(s: string)
    ensures Decode(s).Ok? <==> IsHex(s, None) && !(|s| == 2 && s[1] == 'x')
    ensures Decode(s).Ok? ==> |Decode(s).value| == (|s| - PrefixOffset(s)) / 2
    ensures Decode(s).Ok? ==> forall n: nat :: IsHex(s, Some(n)) <==> n == |Decode(s).value|
  {
    if |s| % 2 == 0 {
      var digits := s[PrefixOffset(s)..];
      PairsJustIfDigits(digits);
      assert forall i | PrefixOffset(s) <= i < |s| :: s[i] == digits[i - PrefixOffset(s)];
      if |s| == 2 {
        assert digits == s;
      }
    }
  }

  lemma LowerDigit(c: char)
    requires DigitVal(c).Some?
    ensures Digit(DigitVal(c).value) == LowerChar(c)
  {
  }

  lemma {:induction false} DigitsUndoPairs(s: string)
    requires |s| % 2 == 0 && Pairs(s).Some?
    ensures HexDigits(Pairs(s).value) == Lower(s)
  {
    if |s| > 0 {
      var arr := Pairs(s).value;
      assert arr == [arr[0]] + Pairs(s[2..]).value;
      DigitsUndoPairs(s[2..]);
      TwoDigits(arr[0]);
      LowerDigit(s[0]);
      LowerDigit(s[1]);
      assert arr[1..] == Pairs(s[2..]).value;
      assert Lower(s) == [LowerChar(s[0]), LowerChar(s[1])] + Lower(s[2..]);
    }
  }

  /** Printing what was parsed gives the digits back in lower case. */
  lemma PrintUndoesDecode(s: string, addPrefix: bool)
    requires Decode(s).Ok?
    ensures Uint8ArrayToHexByteString(Decode(s).value, addPrefix) ==
            (if addPrefix then "0x" else "") + Lower(s[PrefixOffset(s)..])
  {
    DigitsUndoPairs(s[PrefixOffset(s)..]);
  }
}
