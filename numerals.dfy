/**
 * Decimal renderings of non-negative integers as Python writes them:
 * `str(n)`, reading a digit string back, and `str.zfill`.
 */
module Numerals {

  predicate IsDigit(c: char) {
    '0' <= c <= '9'
  }

  predicate AllDigits(s: string) {
    forall i :: 0 <= i < |s| ==> IsDigit(s[i])
  }

  /** What `str(n)` produces for n >= 0: at least one digit, no leading zero unless it is "0". */
  predicate Canonical(s: string) {
    |s| >= 1 && AllDigits(s) && (s[0] == '0' ==> |s| == 1)
  }

  function DigitValue(c: char): (v: nat)
    requires IsDigit(c)
    ensures v < 10
  {
    c as int - '0' as int
  }

  function DigitChar(v: nat): (c: char)
    requires v < 10
    ensures IsDigit(c) && DigitValue(c) == v
  {
    ('0' as int + v) as char
  }

  function Pow10(k: nat): (p: nat)
    ensures p >= 1
  {
    if k == 0 then 1 else 10 * Pow10(k - 1)
  }

  /** Python's `str(n)` for a non-negative integer. */
  function Str(n: nat): (s: string)
    ensures Canonical(s)
    ensures s[0] == '0' <==> n == 0
    decreases n
  {
    if n < 10 then [DigitChar(n)] else Str(n / 10) + [DigitChar(n % 10)]
  }

  /** The number a string of decimal digits denotes; leading zeros are allowed. */
  function Value(s: string): nat
    requires AllDigits(s)
    decreases |s|
  {
    if s == [] then 0 else 10 * Value(s[..|s| - 1]) + DigitValue(s[|s| - 1])
  }

  /** Reading back what `str` wrote gives the number. */
  lemma {:induction false} ValueOfStr(n: nat)
    ensures Value(Str(n)) == n
    decreases n
  {
    var s := Str(n);
    if n < 10 {
      assert s[..|s| - 1] == [];
    } else {
      assert s[..|s| - 1] == Str(n / 10);
      ValueOfStr(n / 10);
    }
  }

  /** Writing out the value of a canonical digit string gives the string back. */
  lemma {:induction false} StrOfValue(s: string)
    requires Canonical(s)
    ensures Str(Value(s)) == s
    decreases |s|
  {
    var last := s[|s| - 1];
    var d := DigitValue(last);
    assert DigitChar(d) == last;
    if |s| == 1 {
      assert s[..0] == [];
      assert Value(s) == d;
    } else {
      var p := s[..|s| - 1];
      assert p[0] == s[0];
      assert Canonical(p);
      StrOfValue(p);
      var v := Value(p);
      assert v != 0;
      assert Value(s) == 10 * v + d;
      assert Value(s) / 10 == v && Value(s) % 10 == d;
      assert s == p + [last];
    }
  }

  /** The k digits of `str(n)` for n >= 1 satisfy 10^(k-1) <= n < 10^k. */
  lemma {:induction false} StrLengthBounds(n: nat)
    requires n >= 1
    ensures Pow10(|Str(n)| - 1) <= n < Pow10(|Str(n)|)
    decreases n
  {
    if n >= 10 {
      StrLengthBounds(n / 10);
      assert |Str(n)| == |Str(n / 10)| + 1;
    }
  }

  /** Powers of ten grow strictly with the exponent. */
  lemma {:induction false} Pow10Monotone(a: nat, b: nat)
    requires a < b
    ensures Pow10(a) < Pow10(b)
    decreases b - a
  {
    if a + 1 < b {
      Pow10Monotone(a, b - 1);
    }
  }

  /** Conversely, an n with 10^(k-1) <= n < 10^k has exactly k digits. */
  lemma StrLengthExact(n: nat, k: nat)
    requires k >= 1 && Pow10(k - 1) <= n < Pow10(k)
    ensures |Str(n)| == k
  {
    StrLengthBounds(n);
    var m := |Str(n)|;
    if m < k {
      if m < k - 1 { Pow10Monotone(m, k - 1); }
      assert false;
    }
    if m > k {
      if k < m - 1 { Pow10Monotone(k, m - 1); }
      assert false;
    }
  }

  /** A larger number never has fewer digits. */
  lemma {:induction false} StrLengthMonotone(a: nat, b: nat)
    requires a <= b
    ensures |Str(a)| <= |Str(b)|
    decreases b
  {
    if a >= 10 {
      StrLengthMonotone(a / 10, b / 10);
    }
  }

  function Zeros(k: nat): (z: string)
    ensures |z| == k && forall i :: 0 <= i < k ==> z[i] == '0'
  {
    seq(k, _ => '0')
  }

  predicate HasSign(s: string) {
    |s| > 0 && (s[0] == '+' || s[0] == '-')
  }

  /**
   * Python's `s.zfill(width)`: pad on the left with '0' up to `width`,
   * keeping a leading sign in front of the padding; no change when `s` is
   * already at least `width` long.
   */
  function ZFill(s: string, width: nat): (r: string)
    ensures |r| == if |s| < width then width else |s|
  {
    if |s| >= width then s
    else if HasSign(s) then [s[0]] + Zeros(width - |s|) + s[1..]
    else Zeros(width - |s|) + s
  }

  /**
   * `zfill` leaves a string at least `width` long unchanged, otherwise puts
   * only '0's in front of it, after its sign when it has one.
   */
  lemma ZFillPads(s: string, width: nat)
    ensures var r := ZFill(s, width);
      && (|s| >= width ==> r == s)
      && (!HasSign(s) ==> r[|r| - |s|..] == s && forall i :: 0 <= i < |r| - |s| ==> r[i] == '0')
      && (HasSign(s) ==>
            && r[0] == s[0]
            && r[|r| - |s| + 1..] == s[1..]
            && forall i :: 1 <= i <= |r| - |s| ==> r[i] == '0')
  {
  }

  /** Padding a digit string to a width it does not exceed puts only zeros in front of it. */
  lemma ZFillUnsigned(s: string, width: nat)
    requires Canonical(s) && |s| <= width
    ensures ZFill(s, width) == Zeros(width - |s|) + s
  {
    assert !HasSign(s) by { assert IsDigit(s[0]); }
    if |s| == width {
      assert Zeros(0) + s == s;
    }
  }

  /** Left-padding zeros do not change the number a digit string denotes. */
  lemma {:induction false} ValueLeadingZeros(k: nat, s: string)
    requires AllDigits(s)
    ensures AllDigits(Zeros(k) + s) && Value(Zeros(k) + s) == Value(s)
    decreases |s|
  {
    var t := Zeros(k) + s;
    if s == [] {
      assert t == Zeros(k);
      ZerosValue(k);
    } else {
      assert t[..|t| - 1] == Zeros(k) + s[..|s| - 1];
      ValueLeadingZeros(k, s[..|s| - 1]);
    }
  }

  lemma {:induction false} ZerosValue(k: nat)
    ensures AllDigits(Zeros(k)) && Value(Zeros(k)) == 0
    decreases k
  {
    if k > 0 {
      assert Zeros(k)[..k - 1] == Zeros(k - 1);
      ZerosValue(k - 1);
    }
  }
}
