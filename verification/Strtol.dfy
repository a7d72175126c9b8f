/** strtol.  A C string is the sequence of its characters; reading at its end finds the terminator. */
module Strtol {
  import opened Numerals

  const LONG_MAX: int := 0x7FFF_FFFF_FFFF_FFFF
  const LONG_MIN: int := -0x8000_0000_0000_0000

  function At(s: seq<char>, i: nat): char
  {
    if i < |s| then s[i] else '\0'
  }

  predicate IsSpace(c: char)
  {
    c == ' ' || c == '\t' || c == '\n' || c == '\r' || c as int == 12 || c as int == 11
  }

  /** Reading stops at the first terminator. */
  ghost predicate IsCString(s: seq<char>)
  {
    forall i :: 0 <= i < |s| ==> s[i] != '\0'
  }

  // ---------- What the string means ----------

  function SkipSpaces(s: seq<char>, i: nat): (k: nat)
    requires i <= |s|
    ensures i <= k <= |s| && !IsSpace(At(s, k))
    ensures forall l :: i <= l < k ==> IsSpace(s[l])
    decreases |s| - i
  {
    if IsSpace(At(s, i)) then SkipSpaces(s, i + 1) else i
  }

  /** Where the digits that begin at `i` end. */
  function RunEnd(s: seq<char>, i: nat, base: nat): (k: nat)
    requires i <= |s|
    ensures i <= k <= |s| && !IsDigit(At(s, k), base)
    ensures forall l :: i <= l < k ==> IsDigit(s[l], base)
    decreases |s| - i
  {
    if IsDigit(At(s, i), base) then RunEnd(s, i + 1, base) else i
  }

  /** Sign, base and start of the digits. */
  datatype Subject = Subject(sign: int, base: nat, from: nat)

  predicate HexPrefix(s: seq<char>, i: nat)
  {
    At(s, i) == '0' && (At(s, i + 1) == 'x' || At(s, i + 1) == 'X')
  }

  function SubjectOf(s: seq<char>, base: nat): (r: Subject)
    ensures (r.sign == 1 || r.sign == -1) && 1 <= r.base && r.from <= |s|
  {
    var i := SkipSpaces(s, 0);
    var sign := if At(s, i) == '-' then -1 else 1;
    var k := if At(s, i) == '-' || At(s, i) == '+' then i + 1 else i;
    if base == 0 then
      if HexPrefix(s, k) then Subject(sign, 16, k + 2)
      else if At(s, k) == '0' then Subject(sign, 8, k + 1)
      else Subject(sign, 10, k)
    else if base == 16 && HexPrefix(s, k) then Subject(sign, 16, k + 2)
    else Subject(sign, base, k)
  }

  function Clamp(x: int): int
  {
    if x > LONG_MAX then LONG_MAX else if x < LONG_MIN then LONG_MIN else x
  }

  function Magnitude(s: seq<char>, base: nat): int
  {
    var subject := SubjectOf(s, base);
    Value(s[subject.from..RunEnd(s, subject.from, subject.base)], subject.base)
  }

  /** The number a string stands for, held to the range of a `long`. */
  function Meaning(s: seq<char>, base: nat): int
  {
    Clamp(SubjectOf(s, base).sign * Magnitude(s, base))
  }

  // ---------- The code ----------

  /** The overflow test agrees with exact arithmetic. */
  lemma CutoffIsExact(result: int, digit: int, base: nat)
    requires 1 <= base && 0 <= digit < base && 0 <= result
    ensures (result > LONG_MAX / base || (result == LONG_MAX / base && digit > LONG_MAX % base)) <==> result * base + digit > LONG_MAX
  {
    var cutoff, cutlim := LONG_MAX / base, LONG_MAX % base;
    assert LONG_MAX == base * cutoff + cutlim;
    if result > cutoff {
      MulMonotone(base, cutoff + 1, result);
    } else if result < cutoff {
      MulMonotone(base, result + 1, cutoff);
    }
  }

  method ScanSubject(str: seq<char>, base0: nat) returns (sign: int, base: nat, s: nat)
    ensures Subject(sign, base, s) == SubjectOf(str, base0)
  {
    s, sign, base := 0, 1, base0;
    while IsSpace(At(str, s))
      invariant s <= |str| && SkipSpaces(str, s) == SkipSpaces(str, 0)
      decreases |str| - s
    {
      s := s + 1;
    }
    if At(str, s) == '-' {
      sign := -1;
      s := s + 1;
    } else if At(str, s) == '+' {
      s := s + 1;
    }
    if base == 0 {
      if At(str, s) == '0' {
        if At(str, s + 1) == 'x' || At(str, s + 1) == 'X' {
          base := 16;
          s := s + 2;
        } else {
          base := 8;
          s := s + 1;
        }
      } else {
        base := 10;
      }
    } else if base == 16 && At(str, s) == '0' && (At(str, s + 1) == 'x' || At(str, s + 1) == 'X') {
      s := s + 2;
    }
  }

  method ReadDigit(c: char) returns (digit: int)
    ensures digit == DigitValue(c)
  {
    if '0' <= c <= '9' {
      digit := c as int - '0' as int;
    } else if 'a' <= c <= 'z' {
      digit := c as int - 'a' as int + 10;
    } else if 'A' <= c <= 'Z' {
      digit := c as int - 'A' as int + 10;
    } else {
      digit := -1;
    }
  }

  lemma NextInRun(str: seq<char>, from: nat, s: nat, base: nat)
    requires from <= s < |str| && IsDigit(str[s], base)
    ensures Value(str[from..s + 1], base) == Value(str[from..s], base) * base + DigitValue(str[s])
    ensures RunEnd(str, s, base) == RunEnd(str, s + 1, base)
  {
    assert str[from..s + 1] == str[from..s] + [str[s]];
    ValuePush(str[from..s], str[s], base);
  }

  /** One digit more, unless the number would leave the range of a `long`. */
  method PushDigitChecked(result: int, digit: int, base: nat) returns (next: int, overflow: bool)
    requires 1 <= base && 0 <= digit < base && 0 <= result <= LONG_MAX
    ensures overflow <==> result * base + digit > LONG_MAX
    ensures !overflow ==> next == result * base + digit && 0 <= next <= LONG_MAX
  {
    var cutoff := LONG_MAX / base;
    var cutlim := LONG_MAX % base;
    CutoffIsExact(result, digit, base);
    if result > cutoff || (result == cutoff && digit > cutlim) {
      return result, true;
    }
    TimesBase(result, base);
    return result * base + digit, false;
  }

  /** The digit loop: the value of the digits read, and whether the next one does not fit any more. */
  method ReadDigits(str: seq<char>, from: nat, base: nat) returns (result: int, s: nat, overflow: bool)
    requires IsCString(str) && from <= |str| && 1 <= base
    ensures from <= s <= RunEnd(str, from, base)
    ensures result == Value(str[from..s], base) && 0 <= result <= LONG_MAX
    ensures overflow <==> s < RunEnd(str, from, base)
    ensures overflow ==> Value(str[from..s + 1], base) > LONG_MAX
  {
    result, s, overflow := 0, from, false;
    while At(str, s) != '\0'
      invariant from <= s <= |str| && RunEnd(str, s, base) == RunEnd(str, from, base)
      invariant result == Value(str[from..s], base) && 0 <= result <= LONG_MAX
      decreases |str| - s
    {
      var digit := ReadDigit(At(str, s));
      if digit < 0 || digit >= base {
        break;
      }
      NextInRun(str, from, s, base);
      var next;
      next, overflow := PushDigitChecked(result, digit, base);
      if overflow {
        return;
      }
      result, s := next, s + 1;
    }
  }

  /** What strtol takes for a blank and for a digit, character by character. */
  lemma CharacterClasses(c: char, base: nat)
    ensures IsSpace(c) <==> c as int in {9, 10, 11, 12, 13, 32}
    ensures '0' <= c <= '9' ==> DigitValue(c) == c as int - '0' as int
    ensures 'a' <= c <= 'z' ==> DigitValue(c) == c as int - 'a' as int + 10
    ensures 'A' <= c <= 'Z' ==> DigitValue(c) == c as int - 'A' as int + 10
    ensures !('0' <= c <= '9') && !('a' <= c <= 'z') && !('A' <= c <= 'Z') ==> DigitValue(c) < 0
    ensures base <= 10 ==> (IsDigit(c, base) <==> '0' as int <= c as int < '0' as int + base)
    ensures 10 < base <= 36 ==>
      (IsDigit(c, base) <==> '0' <= c <= '9' || 'a' as int <= c as int < 'a' as int + (base - 10) || 'A' as int <= c as int < 'A' as int + (base - 10))
  {
  }

  /** Blanks, a sign, the prefix that belongs to the base, digits, and something else: what the number means. */
  lemma MeaningOfParts(s: seq<char>, base: nat, a: nat, b: nat, c: nat, k: nat)
    requires base <= 36 && base != 1 && a <= b <= c <= k <= |s|
    requires (forall l :: 0 <= l < a ==> IsSpace(s[l])) && !IsSpace(At(s, a))
    requires s[a..b] in {"", "+", "-"} && (b == a ==> At(s, a) !in {'+', '-'})
    requires s[b..c] in {"", "0", "0x", "0X"}
    requires s[b..c] in {"0x", "0X"} <==> base in {0, 16} && At(s, b) == '0' && At(s, b + 1) in {'x', 'X'}
    requires s[b..c] == "0" <==> base == 0 && At(s, b) == '0' && At(s, b + 1) !in {'x', 'X'}
    requires var r := if base != 0 then base else if c == b then 10 else if c == b + 1 then 8 else 16;
      (forall l :: c <= l < k ==> IsDigit(s[l], r)) && !IsDigit(At(s, k), r)
    ensures var r := if base != 0 then base else if c == b then 10 else if c == b + 1 then 8 else 16;
      var exact := (if s[a..b] == "-" then -1 else 1) * Value(s[c..k], r);
      Meaning(s, base) == if exact > 0x7FFF_FFFF_FFFF_FFFF then 0x7FFF_FFFF_FFFF_FFFF else if exact < -0x8000_0000_0000_0000 then -0x8000_0000_0000_0000 else exact
  {
    SkipsTo(s, 0, a);
    assert b > a ==> s[a..b] == [s[a]];
    assert c == b + 1 ==> s[b..c] == [s[b]];
    assert c == b + 2 ==> s[b..c] == [s[b], s[b + 1]];
    var r := SubjectOf(s, base);
    assert r.from == c;
    RunsTo(s, c, k, r.base);
  }

  lemma {:induction false} SkipsTo(t: seq<char>, i: nat, a: nat)
    requires i <= a <= |t| && (forall l :: i <= l < a ==> IsSpace(t[l])) && !IsSpace(At(t, a))
    ensures SkipSpaces(t, i) == a
    decreases a - i
  {
    if i < a {
      SkipsTo(t, i + 1, a);
    }
  }

  lemma {:induction false} RunsTo(t: seq<char>, i: nat, k: nat, base: nat)
    requires i <= k <= |t| && (forall l :: i <= l < k ==> IsDigit(t[l], base)) && !IsDigit(At(t, k), base)
    ensures RunEnd(t, i, base) == k
    decreases k - i
  {
    if i < k {
      RunsTo(t, i + 1, k, base);
    }
  }

  /** Result and end pointer; after an overflow the end pointer stays at the digit that overflowed. */
  method Strtol(str: seq<char>, base0: nat) returns (result: int, end: nat)
    requires IsCString(str)
    ensures result == Meaning(str, base0)
    ensures var r := SubjectOf(str, base0);
      && r.from <= end <= RunEnd(str, r.from, r.base)
      && Value(str[r.from..end], r.base) <= LONG_MAX
      && (end == RunEnd(str, r.from, r.base) || Value(str[r.from..end + 1], r.base) > LONG_MAX)
  {
    var sign, base, from := ScanSubject(str, base0);
    var overflow;
    result, end, overflow := ReadDigits(str, from, base);
    if overflow {
      OverflowClamps(str, from, end, base);
      result := if sign == 1 then LONG_MAX else LONG_MIN;
    } else {
      result := result * sign;
    }
  }

  /** Once a prefix of the digits is too large, so are all of them. */
  lemma OverflowClamps(str: seq<char>, from: nat, s: nat, base: nat)
    requires 1 <= base && from <= s < |str| && s < RunEnd(str, from, base)
    requires Value(str[from..s + 1], base) > LONG_MAX
    ensures Value(str[from..RunEnd(str, from, base)], base) > LONG_MAX
  {
    var run := str[from..RunEnd(str, from, base)];
    assert run[..s + 1 - from] == str[from..s + 1];
    ValueGrows(run, s + 1 - from, base);
  }
}
