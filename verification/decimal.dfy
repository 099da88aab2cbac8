/** Decimal rendering of integers, as Python's `str(n)` and `f"{n:0Wd}"` produce it. */
module Decimal {
  import opened Wrappers

  predicate IsDigit(c: char) {
    '0' <= c <= '9'
  }

  predicate AllDigits(s: string) {
    forall i :: 0 <= i < |s| ==> IsDigit(s[i])
  }

  function DigitChar(d: nat): (c: char)
    requires d < 10
    ensures IsDigit(c)
  {
    ('0' as int + d) as char
  }

  function DigitValue(c: char): nat
    requires IsDigit(c)
  {
    c as int - '0' as int
  }

  /** The number a string of decimal digits denotes (Python's `int(s)` on such a string). */
  function Value(s: string): nat
    requires AllDigits(s)
    decreases |s|
  {
    if s == [] then 0 else Value(s[..|s| - 1]) * 10 + DigitValue(s[|s| - 1])
  }

  function Pow10(k: nat): (p: nat)
    ensures p >= 1
  {
    if k == 0 then 1 else 10 * Pow10(k - 1)
  }

  /** Python's `str(n)` for a natural number: its shortest decimal representation. */
  function Digits(n: nat): (r: string)
    ensures 1 <= |r| && AllDigits(r)
    ensures Value(r) == n
    ensures |r| > 1 ==> r[0] != '0'
    decreases n
  {
    if n < 10 then [DigitChar(n)]
    else
      var r := Digits(n / 10) + [DigitChar(n % 10)];
      assert r[..|r| - 1] == Digits(n / 10);
      r
  }

  /** A number below 10^k needs at most k digits. */
  lemma {:induction false} DigitsLength(n: nat, k: nat)
    requires 1 <= k && n < Pow10(k)
    ensures |Digits(n)| <= k
    decreases n
  {
    if n >= 10 {
      assert k >= 2;
      DigitsLength(n / 10, k - 1);
    }
  }

  function Zeros(k: nat): (r: string)
    ensures |r| == k && AllDigits(r) && Value(r) == 0
  {
    if k == 0 then []
    else
      var r := Zeros(k - 1) + ['0'];
      assert r[..|r| - 1] == Zeros(k - 1);
      r
  }

  /** Leading zeros do not change the value of a digit string. */
  lemma {:induction false} ValueLeadingZeros(z: string, d: string)
    requires AllDigits(z) && AllDigits(d) && Value(z) == 0
    ensures AllDigits(z + d) && Value(z + d) == Value(d)
    decreases |d|
  {
    var s := z + d;
    if d == [] {
      assert s == z;
    } else {
      assert s[..|s| - 1] == z + d[..|d| - 1];
      ValueLeadingZeros(z, d[..|d| - 1]);
    }
  }

  /** Python's `f"{n:0{width}d}"` for a natural number: left-padded with zeros to `width`. */
  function ZeroPad(n: nat, width: nat): (r: string)
    ensures |r| == if |Digits(n)| < width then width else |Digits(n)|
    ensures AllDigits(r) && Value(r) == n
  {
    var d := Digits(n);
    var z := if |d| < width then Zeros(width - |d|) else [];
    ValueLeadingZeros(z, d);
    z + d
  }

  /** A number below 10^width is padded to exactly `width` digits. */
  lemma ZeroPadWidth(n: nat, width: nat)
    requires 1 <= width && n < Pow10(width)
    ensures |ZeroPad(n, width)| == width
  {
    DigitsLength(n, width);
  }

  /** Python's `f"{n:0{width}d}"` for any integer: a minus sign counts towards the width. */
  function FormatInt(n: int, width: nat): (r: string)
    ensures |r| >= width
    ensures var len := |Digits(if n < 0 then -n else n)| + (if n < 0 then 1 else 0);
      |r| == if len < width then width else len
    ensures 0 <= n ==> AllDigits(r) && Value(r) == n
    ensures n < 0 ==> |r| >= 2 && r[0] == '-' && AllDigits(r[1..]) && Value(r[1..]) == -n
  {
    if 0 <= n then ZeroPad(n, width)
    else
      var r := "-" + ZeroPad(-n, if width > 0 then width - 1 else 0);
      assert r[1..] == ZeroPad(-n, if width > 0 then width - 1 else 0);
      r
  }

  /** The value of the digits `s[i..j]`, if they are all digits. */
  function DigitsAt(s: string, i: nat, j: nat): Option<nat>
    requires i <= j <= |s|
  {
    if AllDigits(s[i..j]) then Some(Value(s[i..j])) else None
  }

  /** A slice that spells the digits `d` reads as the value of `d`. */
  lemma DigitsAtSlice(s: string, i: nat, j: nat, d: string)
    requires i <= j <= |s| && s[i..j] == d && AllDigits(d)
    ensures DigitsAt(s, i, j) == Some(Value(d))
  {
  }
}
