/**
 * Decimal text of integers: the fixed-width, zero-padded counter that the
 * coordination service appends to sequential node names ("%010d"), and
 * Java's Integer.toString / Integer.parseInt, which carry node ids and vote
 * counts through node payloads.
 */
module Decimal {
  import opened Wrappers
  import opened JavaStrings

  const Int32Min: int := -2147483648
  const Int32Max: int := 2147483647

  /** The values of Java's `int`. */
  predicate IsInt32(i: int)
  {
    Int32Min <= i <= Int32Max
  }

  predicate IsDigit(c: char)
  {
    '0' <= c <= '9'
  }

  function DigitChar(d: nat): (c: char)
    requires d < 10
    ensures IsDigit(c)
  {
    (48 + d) as char
  }

  function DigitValue(c: char): nat
    requires IsDigit(c)
  {
    (c as int) - 48
  }

  predicate AllDigits(s: string)
  {
    forall i :: 0 <= i < |s| ==> IsDigit(s[i])
  }

  /** The number a string of decimal digits denotes; leading zeros are allowed. */
  function Value(s: string): nat
    requires AllDigits(s)
  {
    if s == [] then 0 else Value(s[..|s| - 1]) * 10 + DigitValue(s[|s| - 1])
  }

  function Pow10(w: nat): nat
  {
    if w == 0 then 1 else 10 * Pow10(w - 1)
  }

  /** `String.format("%0<w>d", k)`: exactly `w` digits, zero-padded on the left. */
  function Padded(k: nat, w: nat): (r: string)
    requires k < Pow10(w)
    ensures |r| == w && AllDigits(r)
  {
    if w == 0 then [] else Padded(k / 10, w - 1) + [DigitChar(k % 10)]
  }

  /** Reading a padded counter gives the counter back. */
  lemma {:induction false} PaddedValue(k: nat, w: nat)
    requires k < Pow10(w)
    ensures Value(Padded(k, w)) == k
  {
    if w > 0 {
      var s := Padded(k, w);
      PaddedValue(k / 10, w - 1);
      assert s[..|s| - 1] == Padded(k / 10, w - 1);
    }
  }

  /** A string of `w` digits is the padded form of its own value. */
  lemma {:induction false} ValuePadded(s: string)
    requires AllDigits(s)
    ensures Value(s) < Pow10(|s|) && Padded(Value(s), |s|) == s
  {
    if s != [] {
      var init := s[..|s| - 1];
      ValuePadded(init);
      assert s == init + [s[|s| - 1]];
    }
  }

  /** Padding to a common width makes string order agree with numeric order:
      this is what lets the primitives sort sequential names as strings. */
  lemma {:induction false} PaddedLess(a: nat, b: nat, w: nat)
    requires a < b < Pow10(w)
    ensures Less(Padded(a, w), Padded(b, w))
  {
    var pa, pb := Padded(a / 10, w - 1), Padded(b / 10, w - 1);
    var ca, cb := DigitChar(a % 10), DigitChar(b % 10);
    if a / 10 < b / 10 {
      PaddedLess(a / 10, b / 10, w - 1);
      LessSameLengthAppend(pa, pb, [ca], [cb]);
    } else {
      assert pa == pb && ca < cb;
      LessCommonPrefix(pa, [ca], [cb]);
    }
  }

  /** The digits of `n` without leading zeros. */
  function NatToString(n: nat): (r: string)
    ensures |r| > 0 && AllDigits(r)
  {
    if n < 10 then [DigitChar(n)] else NatToString(n / 10) + [DigitChar(n % 10)]
  }

  lemma {:induction false} NatToStringValue(n: nat)
    ensures Value(NatToString(n)) == n
  {
    if n >= 10 {
      var s := NatToString(n);
      NatToStringValue(n / 10);
      assert s[..|s| - 1] == NatToString(n / 10);
    }
  }

  /** `Integer.toString(i)`: a minus sign for negative values, then the digits. */
  function IntToString(i: int): (r: string)
    ensures forall k :: 0 <= k < |r| ==> IsDigit(r[k]) || r[k] == '-'
  {
    if i < 0 then "-" + NatToString(-i) else NatToString(i)
  }

  function InRange(v: int): Option<int>
  {
    if IsInt32(v) then Some(v) else None
  }

  /** `Integer.parseInt(s)`: an optional sign, at least one digit, and a value
      that fits in an `int`; None stands for NumberFormatException. */
  function ParseInt(s: string): (r: Option<int>)
    ensures r.Some? ==> IsInt32(r.value)
    ensures r.Some? ==> |s| > 0 && (s[0] == '-' || s[0] == '+' || IsDigit(s[0]))
    ensures r.Some? ==> forall k :: 0 < k < |s| ==> IsDigit(s[k])
    ensures |s| > 0 && AllDigits(s) ==> r == if IsInt32(Value(s)) then Some(Value(s)) else None
    ensures |s| > 1 && s[0] == '-' && AllDigits(s[1..]) ==> r == InRange(-(Value(s[1..]) as int))
    ensures |s| > 1 && s[0] == '+' && AllDigits(s[1..]) ==> r == InRange(Value(s[1..]))
  {
    if |s| == 0 then None
    else if s[0] == '-' || s[0] == '+' then
      if |s| == 1 || !AllDigits(s[1..]) then None
      else if s[0] == '-' then InRange(-(Value(s[1..]) as int))
      else InRange(Value(s[1..]))
    else if !AllDigits(s) then None
    else InRange(Value(s))
  }

  /** Integer.parseInt reads back what Integer.toString wrote. */
  lemma ParseIntToString(i: int)
    requires IsInt32(i)
    ensures ParseInt(IntToString(i)) == Some(i)
  {
    if i < 0 {
      NatToStringValue(-i);
      assert IntToString(i)[1..] == NatToString(-i);
    } else {
      NatToStringValue(i);
      assert IsDigit(IntToString(i)[0]);
    }
  }
}
