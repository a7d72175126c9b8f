/** printf format specifiers: flags, width, precision, length modifier and conversion. */
module FormatSpec {
  import opened Strtol

  datatype Opt = NoOpt | Literal | Star
  datatype LengthModifier = Plain | Short | Byte | Long | LongLong | IntMax | SizeT | PtrDiff
  datatype Conversion = Percent | Char | String | Signed | Octal | Hex | Unsigned | Pointer

  datatype Spec = Spec(prepend: char, alt: bool, widthOpt: Opt, width: int, left: bool, zeroPad: bool,
                       precOpt: Opt, prec: int, length: LengthModifier, conv: Conversion, lower: bool)

  datatype Option<T> = None | Some(value: T)

  // ---------- Flags ----------

  datatype Flags = Flags(left: bool, zero: bool, prepend: char, alt: bool)

  const NO_FLAGS: Flags := Flags(false, false, '\0', false)

  predicate IsFlag(c: char)
  {
    c == '-' || c == '0' || c == '+' || c == ' ' || c == '#'
  }

  function AddFlag(f: Flags, c: char): Flags
    requires IsFlag(c)
  {
    if c == '-' then f.(left := true, zero := false)
    else if c == '0' then f.(zero := !f.left)
    else if c == '+' then f.(prepend := '+')
    else if c == ' ' then (if f.prepend == '\0' then f.(prepend := ' ') else f)
    else f.(alt := true)
  }

  function ParseFlags(fmt: seq<char>, i: nat, f: Flags): (r: (Flags, nat))
    requires i <= |fmt|
    ensures i <= r.1 <= |fmt|
    decreases |fmt| - i
  {
    if IsFlag(At(fmt, i)) then ParseFlags(fmt, i + 1, AddFlag(f, fmt[i])) else (f, i)
  }

  /** The flags meant by the characters of `s`, in whatever order they come. */
  function FlagsOf(s: seq<char>): Flags
  {
    Flags('-' in s, '0' in s && '-' !in s, if '+' in s then '+' else if ' ' in s then ' ' else '\0', '#' in s)
  }

  lemma {:induction false} FlagOrderIsFree(fmt: seq<char>, start: nat, i: nat)
    requires start <= i <= |fmt| && forall k :: start <= k < i ==> IsFlag(fmt[k])
    ensures var r := ParseFlags(fmt, i, FlagsOf(fmt[start..i]));
      r.0 == FlagsOf(fmt[start..r.1]) && !IsFlag(At(fmt, r.1))
    decreases |fmt| - i
  {
    if IsFlag(At(fmt, i)) {
      assert fmt[start..i + 1] == fmt[start..i] + [fmt[i]];
      assert AddFlag(FlagsOf(fmt[start..i]), fmt[i]) == FlagsOf(fmt[start..i + 1]);
      FlagOrderIsFree(fmt, start, i + 1);
    }
  }

  // ---------- Numbers, modifiers and conversions ----------

  predicate IsDecimal(c: char)
  {
    '0' <= c <= '9'
  }

  function ParseNumber(fmt: seq<char>, i: nat, acc: nat): (r: (nat, nat))
    requires i <= |fmt|
    ensures i <= r.1 <= |fmt|
    decreases |fmt| - i
  {
    if IsDecimal(At(fmt, i)) then ParseNumber(fmt, i + 1, acc * 10 + (fmt[i] as int - 48)) else (acc, i)
  }

  /** Width: how it is given, its value and what follows. */
  function ParseWidth(fmt: seq<char>, i: nat): (r: (Opt, nat, nat))
    requires i <= |fmt|
    ensures i <= r.2 <= |fmt|
  {
    if At(fmt, i) == '*' then (Star, 0, i + 1)
    else
      var (n, k) := ParseNumber(fmt, i, 0);
      (if IsDecimal(At(fmt, i)) then Literal else NoOpt, n, k)
  }

  function ParsePrecision(fmt: seq<char>, i: nat): (r: (Opt, nat, nat))
    requires i <= |fmt|
    ensures i <= r.2 <= |fmt|
  {
    if At(fmt, i) != '.' then (NoOpt, 0, i)
    else if At(fmt, i + 1) == '*' then (Star, 0, i + 2)
    else
      var negative := At(fmt, i + 1) == '-';
      var (n, k) := ParseNumber(fmt, if negative then i + 2 else i + 1, 0);
      (if negative then NoOpt else Literal, n, k)
  }

  function ParseLength(fmt: seq<char>, i: nat): (r: (LengthModifier, nat))
    requires i <= |fmt|
    ensures i <= r.1 <= |fmt|
  {
    var c := At(fmt, i);
    if c == 'h' then (if At(fmt, i + 1) == 'h' then (Byte, i + 2) else (Short, i + 1))
    else if c == 'l' then (if At(fmt, i + 1) == 'l' then (LongLong, i + 2) else (Long, i + 1))
    else if c == 'j' then (IntMax, i + 1)
    else if c == 'z' then (SizeT, i + 1)
    else if c == 't' then (PtrDiff, i + 1)
    else (Plain, i)
  }

  function ConversionOf(c: char): Option<Conversion>
  {
    match c
    case '%' => Some(Percent)
    case 'c' => Some(Char)
    case 's' => Some(String)
    case 'i' => Some(Signed)
    case 'd' => Some(Signed)
    case 'o' => Some(Octal)
    case 'u' => Some(Unsigned)
    case 'X' => Some(Hex)
    case 'x' => Some(Hex)
    case 'p' => Some(Pointer)
    case _ => None
  }

  predicate IsInteger(conv: Conversion)
  {
    conv == Signed || conv == Octal || conv == Hex || conv == Unsigned
  }

  /** What the last step makes of flags and precision. */
  function Finish(f: Flags, widthOpt: Opt, width: nat, precOpt: Opt, prec: nat, length: LengthModifier, c: char): Spec
    requires ConversionOf(c).Some?
  {
    var conv := ConversionOf(c).value;
    var zeroPad := f.zero && conv != String && !(IsInteger(conv) && precOpt != NoOpt);
    var precOpt' := if conv == Percent || conv == Char || conv == Pointer then NoOpt else precOpt;
    Spec(f.prepend, f.alt, widthOpt, width, f.left, zeroPad, precOpt', prec, length, conv, c != 'X')
  }

  /** The specifier that starts at the '%' at `i`, and the index behind it. */
  function ParseSpec(fmt: seq<char>, i: nat): (r: Option<(Spec, nat)>)
    requires i < |fmt|
    ensures r.Some? ==> i < r.value.1 <= |fmt|
  {
    var (f, a) := ParseFlags(fmt, i + 1, NO_FLAGS);
    var (widthOpt, width, b) := ParseWidth(fmt, a);
    var (precOpt, prec, c) := ParsePrecision(fmt, b);
    var (length, d) := ParseLength(fmt, c);
    if ConversionOf(At(fmt, d)).None? then None
    else Some((Finish(f, widthOpt, width, precOpt, prec, length, At(fmt, d)), d + 1))
  }

  /** Zero padding never meets left justification in a parsed specifier. */
  lemma ParsedIsTidy(fmt: seq<char>, i: nat)
    requires i < |fmt|
    ensures ParseSpec(fmt, i).Some? ==> var spec := ParseSpec(fmt, i).value.0; !(spec.left && spec.zeroPad) && 0 <= spec.width && 0 <= spec.prec
    ensures ParseSpec(fmt, i).Some? ==> ParseSpec(fmt, i).value.0.prepend in {'\0', ' ', '+'}
    ensures ParseSpec(fmt, i).Some? ==> var spec := ParseSpec(fmt, i).value.0; spec.widthOpt == NoOpt ==> spec.width == 0
  {
    FlagOrderIsFree(fmt, i + 1, i + 1);
    assert fmt[i + 1..i + 1] == [];
    assert FlagsOf([]) == NO_FLAGS;
  }
}
