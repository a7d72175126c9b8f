/** Numbers written as digits in a base, as the kernel's printer and parser both understand them. */
module Numerals {

  function Pow(base: nat, k: nat): nat
  {
    if k == 0 then 1 else base * Pow(base, k - 1)
  }

  lemma {:induction false} PowSum(base: nat, j: nat, k: nat)
    ensures Pow(base, j + k) == Pow(base, j) * Pow(base, k)
  {
    if j > 0 {
      PowSum(base, j - 1, k);
      assert base * (Pow(base, j - 1) * Pow(base, k)) == base * Pow(base, j - 1) * Pow(base, k);
    }
  }

  /** The digit `d` as the printer writes it. */
  function DigitChar(d: nat, lower: bool): char
    requires d < 16
  {
    if d < 10 then (48 + d) as char else if lower then (97 + (d - 10)) as char else (65 + (d - 10)) as char
  }

  /** The value the parser gives to a character; -1 for one that is no digit in any base. */
  function DigitValue(c: char): int
  {
    if '0' <= c <= '9' then c as int - 48
    else if 'a' <= c <= 'z' then c as int - 97 + 10
    else if 'A' <= c <= 'Z' then c as int - 65 + 10
    else -1
  }

  predicate IsDigit(c: char, base: nat)
  {
    0 <= DigitValue(c) < base
  }

  lemma DigitRoundTrip(d: nat, lower: bool)
    requires d < 16
    ensures DigitValue(DigitChar(d, lower)) == d
  {
  }

  ghost predicate AllDigits(ds: seq<char>, base: nat)
  {
    forall k :: 0 <= k < |ds| ==> IsDigit(ds[k], base)
  }

  /** The number a string of digits stands for. */
  function Value(ds: seq<char>, base: nat): int
  {
    if ds == [] then 0 else Value(ds[..|ds| - 1], base) * base + DigitValue(ds[|ds| - 1])
  }

  lemma ValuePush(ds: seq<char>, c: char, base: nat)
    ensures Value(ds + [c], base) == Value(ds, base) * base + DigitValue(c)
  {
    assert (ds + [c])[..|ds|] == ds;
  }

  /** More digits never make the number smaller. */
  lemma {:induction false} ValueGrows(ds: seq<char>, k: nat, base: nat)
    requires 1 <= base && AllDigits(ds, base) && k <= |ds|
    ensures 0 <= Value(ds[..k], base) <= Value(ds, base)
    decreases |ds|
  {
    if k < |ds| {
      var front := ds[..|ds| - 1];
      ValueGrows(front, k, base);
      assert front[..k] == ds[..k];
      assert IsDigit(ds[|ds| - 1], base);
      TimesBase(Value(front, base), base);
    } else {
      assert ds[..k] == ds;
      ValueIsNatural(ds, base);
    }
  }

  lemma {:induction false} ValueIsNatural(ds: seq<char>, base: nat)
    requires 1 <= base && AllDigits(ds, base)
    ensures 0 <= Value(ds, base)
  {
    if ds != [] {
      ValueIsNatural(ds[..|ds| - 1], base);
      TimesBase(Value(ds[..|ds| - 1], base), base);
      assert IsDigit(ds[|ds| - 1], base);
    }
  }

  lemma TimesBase(x: int, base: nat)
    requires 0 <= x && 1 <= base
    ensures x <= x * base
  {
    assert x * (base - 1) >= 0;
  }

  function ZeroDigits(k: nat): (s: seq<char>)
    ensures |s| == k && forall i :: 0 <= i < k ==> s[i] == '0'
  {
    seq(k, _ => '0')
  }

  /** Leading zeros do not count. */
  lemma {:induction false} LeadingZeros(k: nat, ds: seq<char>, base: nat)
    ensures Value(ZeroDigits(k) + ds, base) == Value(ds, base)
  {
    if ds == [] {
      assert ZeroDigits(k) + ds == ZeroDigits(k);
      if k > 0 {
        LeadingZeros(k - 1, [], base);
        assert ZeroDigits(k - 1) + [] == ZeroDigits(k)[..k - 1];
      }
    } else {
      var front := ds[..|ds| - 1];
      LeadingZeros(k, front, base);
      assert (ZeroDigits(k) + ds)[..k + |ds| - 1] == ZeroDigits(k) + front;
    }
  }

  lemma PaddedValue(j: nat, k: nat, ds: seq<char>, base: nat)
    requires 2 <= base && AllDigits(ds, base)
    ensures AllDigits(ZeroDigits(j) + (ZeroDigits(k) + ds), base)
    ensures Value(ZeroDigits(j) + (ZeroDigits(k) + ds), base) == Value(ds, base)
  {
    LeadingZeros(k, ds, base);
    LeadingZeros(j, ZeroDigits(k) + ds, base);
  }

  // ---------- Writing a number ----------

  /** Most significant digit first. */
  function Digits(n: nat, base: nat, lower: bool): (ds: seq<char>)
    requires 2 <= base <= 16
    ensures ds != []
    decreases n
  {
    if n < base then [DigitChar(n, lower)]
    else
      QuotientSmaller(n, base);
      Digits(n / base, base, lower) + [DigitChar(n % base, lower)]
  }

  /** Least significant digit first, as the conversion loops produce them. */
  function RevDigits(n: nat, base: nat, lower: bool): (ds: seq<char>)
    requires 2 <= base <= 16
    ensures ds != []
    decreases n
  {
    if n < base then [DigitChar(n, lower)]
    else
      QuotientSmaller(n, base);
      [DigitChar(n % base, lower)] + RevDigits(n / base, base, lower)
  }

  function Reversed(s: seq<char>): (r: seq<char>)
    ensures |r| == |s|
    ensures forall k :: 0 <= k < |s| ==> r[k] == s[|s| - 1 - k]
  {
    if s == [] then [] else Reversed(s[1..]) + [s[0]]
  }

  lemma MulMonotone(a: nat, x: int, y: int)
    requires x <= y
    ensures a * x <= a * y
  {
  }

  lemma QuotientSmaller(n: nat, base: nat)
    requires 2 <= base <= n
    ensures 0 < n / base < n
  {
    var q := n / base;
    assert n == base * q + n % base;
    assert q != 0;
    MulMonotone(q, 2, base);
  }

  lemma {:induction false} DigitsAreReversed(n: nat, base: nat, lower: bool)
    requires 2 <= base <= 16
    ensures Reversed(RevDigits(n, base, lower)) == Digits(n, base, lower)
    decreases n
  {
    if n >= base {
      QuotientSmaller(n, base);
      DigitsAreReversed(n / base, base, lower);
      var rev := RevDigits(n, base, lower);
      assert rev[1..] == RevDigits(n / base, base, lower);
    }
  }

  lemma Split(n: nat, base: nat) returns (q: nat, r: nat)
    requires 2 <= base <= n
    ensures q == n / base && r == n % base && 0 < q < n && r < base && n == base * q + r
  {
    QuotientSmaller(n, base);
    q, r := n / base, n % base;
  }

  /** Reading the digits of a number gives it back. */
  lemma {:induction false} ValueOfDigits(n: nat, base: nat, lower: bool)
    requires 2 <= base <= 16
    ensures AllDigits(Digits(n, base, lower), base)
    ensures Value(Digits(n, base, lower), base) == n
    decreases n
  {
    if n < base {
      OneDigit(n, base, lower);
    } else {
      var q, r := Split(n, base);
      ValueOfDigits(q, base, lower);
      PushDigit(Digits(q, base, lower), q, r, base, lower);
    }
  }

  lemma OneDigit(d: nat, base: nat, lower: bool)
    requires d < base && 2 <= base <= 16
    ensures AllDigits([DigitChar(d, lower)], base) && Value([DigitChar(d, lower)], base) == d
  {
    DigitRoundTrip(d, lower);
    assert [DigitChar(d, lower)] == [] + [DigitChar(d, lower)];
    ValuePush([], DigitChar(d, lower), base);
  }

  lemma PushDigit(ds: seq<char>, q: int, d: nat, base: nat, lower: bool)
    requires 2 <= base <= 16 && d < base && AllDigits(ds, base) && Value(ds, base) == q
    ensures AllDigits(ds + [DigitChar(d, lower)], base)
    ensures Value(ds + [DigitChar(d, lower)], base) == base * q + d
  {
    ValuePush(ds, DigitChar(d, lower), base);
    DigitRoundTrip(d, lower);
  }

  /** A number below base^k has at most k digits. */
  lemma {:induction false} DigitCount(n: nat, base: nat, lower: bool, k: nat)
    requires 2 <= base <= 16 && 1 <= k && n < Pow(base, k)
    ensures |Digits(n, base, lower)| <= k
    decreases n
  {
    if n >= base {
      QuotientSmaller(n, base);
      assert Pow(base, 1) == base * Pow(base, 0) == base;
      QuotientBelow(n, base, Pow(base, k - 1));
      DigitCount(n / base, base, lower, k - 1);
    }
  }

  lemma QuotientBelow(n: nat, base: nat, bound: nat)
    requires 2 <= base && n < base * bound
    ensures n / base < bound
  {
    var q := n / base;
    assert n == base * q + n % base;
    assert base * (bound - q) > 0;
  }
}
