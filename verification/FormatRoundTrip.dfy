/** Printing a number with one conversion and reading it with strtol: when the number comes back. */
module FormatRoundTrip {
  import opened Numerals
  import opened Strtol
  import opened FormatSpec
  import opened FormatGrammar
  import opened FormatText

  function Stars(x: SpecText): nat
  {
    (if x.width.WidthStar? then 1 else 0) + (if x.prec.PrecStar? then 1 else 0)
  }

  /** The number to print comes behind the width and the precision among the arguments. */
  function Argument(x: SpecText, args: Args): int
  {
    args.num(Stars(x))
  }

  /** The argument as the type its length modifier and conversion name. */
  function Printed(x: SpecText, args: Args): int
  {
    if ConversionOf(x.conv) == Some(Signed) then AsSigned(Argument(x, args), x.length) else AsUnsigned(Argument(x, args), x.length)
  }

  lemma RenderOne(x: SpecText, args: Args)
    requires Proper(x)
    ensures Render(Text(x), 0, args, 0) == Converted(SpecOf(x), args, 0).0
  {
    var t := Text(x);
    assert t[0..|t|] == t;
    TextParses(t, 0, x);
    var (text, m) := Converted(SpecOf(x), args, 0);
    assert Render(t, |t|, args, m) == [];
    assert text + [] == text;
  }

  /** The signed types have 8, 16, 32 and 64 bits: the value is congruent to the argument and in the type's range. */
  lemma SignedCast(v: int, length: LengthModifier)
    ensures var r := AsSigned(v, length);
      && (length == Byte ==> -0x80 <= r < 0x80 && (r - v) % 0x100 == 0)
      && (length == Short ==> -0x8000 <= r < 0x8000 && (r - v) % 0x1_0000 == 0)
      && (length == Plain ==> -0x8000_0000 <= r < 0x8000_0000 && (r - v) % 0x1_0000_0000 == 0)
      && (length in {Long, LongLong, IntMax, SizeT, PtrDiff} ==>
            -0x8000_0000_0000_0000 <= r < 0x8000_0000_0000_0000 && (r - v) % 0x1_0000_0000_0000_0000 == 0)
  {
    Congruent(v, Width(length));
  }

  /** The unsigned ones likewise. */
  lemma UnsignedCast(v: int, length: LengthModifier)
    ensures var r := AsUnsigned(v, length);
      && (length == Byte ==> 0 <= r < 0x100 && (r - v) % 0x100 == 0)
      && (length == Short ==> 0 <= r < 0x1_0000 && (r - v) % 0x1_0000 == 0)
      && (length == Plain ==> 0 <= r < 0x1_0000_0000 && (r - v) % 0x1_0000_0000 == 0)
      && (length in {Long, LongLong, IntMax, SizeT, PtrDiff} ==>
            0 <= r < 0x1_0000_0000_0000_0000 && (r - v) % 0x1_0000_0000_0000_0000 == 0)
  {
    Congruent(v, Width(length));
  }

  lemma Congruent(v: int, m: nat)
    requires m > 0
    ensures (v % m - v) % m == 0 && (v % m - m - v) % m == 0
  {
    assert v == m * (v / m) + v % m;
    MultipleOf(-(v / m), m);
    MultipleOf(-(v / m) - 1, m);
  }

  lemma MultipleOf(q: int, m: nat)
    requires m > 0
    ensures m * q % m == 0
  {
    var r := m * q % m;
    var d := m * q / m;
    assert m * (q - d) == r;
    if q - d >= 1 {
      MulMonotone(m, 1, q - d);
    } else if q - d <= -1 {
      MulMonotone(m, q - d, -1);
    }
  }

  // ---------- Zeros behind a number ----------

  lemma {:induction false} TrailingZeros(ds: seq<char>, k: nat, base: nat)
    requires 2 <= base && AllDigits(ds, base)
    ensures AllDigits(ds + ZeroDigits(k), base) && Value(ds + ZeroDigits(k), base) == Value(ds, base) * Pow(base, k)
  {
    if k == 0 {
      assert ds + ZeroDigits(0) == ds;
    } else {
      TrailingZeros(ds, k - 1, base);
      assert ds + ZeroDigits(k) == (ds + ZeroDigits(k - 1)) + ['0'];
      OneZeroMore(ds + ZeroDigits(k - 1), base);
      TimesPower(Value(ds, base), base, k);
    }
  }

  lemma OneZeroMore(ds: seq<char>, base: nat)
    requires 2 <= base && AllDigits(ds, base)
    ensures AllDigits(ds + ['0'], base) && Value(ds + ['0'], base) == Value(ds, base) * base
  {
    ValuePush(ds, '0', base);
  }

  lemma TimesPower(v: int, base: nat, k: nat)
    requires k > 0
    ensures v * Pow(base, k - 1) * base == v * Pow(base, k)
  {
    var p := Pow(base, k - 1);
    assert v * p * base == v * (base * p);
  }

  lemma {:induction false} PowIsLarge(base: nat, k: nat)
    requires 2 <= base
    ensures Pow(base, k) >= 1 && (k > 0 ==> Pow(base, k) >= 2)
  {
    if k > 0 {
      PowIsLarge(base, k - 1);
      MulMonotone(base, 1, Pow(base, k - 1));
    }
  }

  /** Scaled by a power of the base, only zero and the two ends of the range stay what they were. */
  lemma ScaledClamp(n: nat, negative: bool, base: nat, k: nat)
    requires 2 <= base && LONG_MIN <= Negated(n, negative) <= LONG_MAX
    ensures Clamp(Negated(n * Pow(base, k), negative)) == Negated(n, negative)
       <==> k == 0 || n == 0 || Negated(n, negative) in {LONG_MIN, LONG_MAX}
  {
    PowIsLarge(base, k);
    if k > 0 {
      MulMonotone(n, 2, Pow(base, k));
    }
  }

  // ---------- Left justified and padded with zeros ----------

  /** Only a negative width given as an argument leads here. */
  predicate ZerosBehind(spec: Spec)
  {
    spec.left && spec.zeroPad && spec.widthOpt == Literal && spec.precOpt == NoOpt && spec.prepend in {'\0', ' ', '+'}
  }

  lemma LeftShape(spec: Spec, p: Piece)
    requires ZerosBehind(spec) && IsInteger(spec.conv) && (p.sign == '\0' || p.prefix == '\0')
    ensures Assemble(spec, p) == Blank(p) + RealSign(p) + Prefix(p) + (Payload(spec, p) + ZeroDigits(FieldPad(spec, p))) + []
  {
    SignParts(p);
    assert Fill(spec, p) == ZeroDigits(FieldPad(spec, p));
    var lead := Sign(p) + Prefix(p);
    assert lead + (Payload(spec, p) + Fill(spec, p)) + [] == lead + Payload(spec, p) + Fill(spec, p);
  }

  /** What such a number reads as: itself, scaled. */
  lemma ScaledReads(spec: Spec, p: Piece, n: nat, base: nat, lower: bool)
    requires 2 <= base <= 16 && p.body == Digits(n, base, lower)
    ensures var ds := Payload(spec, p) + ZeroDigits(FieldPad(spec, p));
      ds != [] && AllDigits(ds, base) && Value(ds, base) == n * Pow(base, FieldPad(spec, p))
  {
    assert Repeat('0', PrecPad(spec, p)) == ZeroDigits(PrecPad(spec, p));
    ValueOfDigits(n, base, lower);
    assert ZeroDigits(0) + Payload(spec, p) == Payload(spec, p);
    PaddedValue(0, PrecPad(spec, p), p.body, base);
    TrailingZeros(Payload(spec, p), FieldPad(spec, p), base);
  }

  lemma LeftNumber(spec: Spec, p: Piece, n: nat, base: nat, lower: bool)
    requires ZerosBehind(spec) && IsInteger(spec.conv) && p.prefix == '\0' && p.sign in {'\0', ' ', '+', '-'}
    requires 2 <= base <= 16 && p.body == Digits(n, base, lower)
    ensures Meaning(Assemble(spec, p), base) == Clamp(Negated(n * Pow(base, FieldPad(spec, p)), p.sign == '-'))
  {
    LeftShape(spec, p);
    ScaledReads(spec, p, n, base, lower);
    DropEmpty(Blank(p) + RealSign(p), Prefix(p));
    ReadsNumber(Blank(p), RealSign(p), Payload(spec, p) + ZeroDigits(FieldPad(spec, p)), [], base);
  }

  lemma LeftSigned(spec: Spec, v: int)
    requires ZerosBehind(spec) && spec.conv == Signed && LONG_MIN <= v <= LONG_MAX
    ensures var p := ConvertSigned(spec, v);
      Meaning(Assemble(spec, p), 10) == Clamp(Negated(Abs(v) * Pow(10, FieldPad(spec, p)), v < 0))
  {
    LeftNumber(spec, ConvertSigned(spec, v), Abs(v), 10, true);
  }

  /** The spoiled texts, and no other, are read as another number. */
  predicate Spoiled(spec: Spec, p: Piece, v: int)
  {
    spec.left && spec.zeroPad && FieldPad(spec, p) > 0 && v !in {0, LONG_MIN, LONG_MAX}
  }

  /** Literal or no width and precision, as after the star arguments are taken. */
  predicate Taken(spec: Spec)
  {
    spec.prepend in {'\0', ' ', '+'} && spec.widthOpt != Star && spec.precOpt != Star && (spec.left && spec.zeroPad ==> ZerosBehind(spec))
  }

  lemma SignedComesBack(spec: Spec, v: int)
    requires Taken(spec) && spec.conv == Signed && LONG_MIN <= v <= LONG_MAX
    ensures Meaning(Assemble(spec, ConvertSigned(spec, v)), 10) == v <==> !Spoiled(spec, ConvertSigned(spec, v), v)
  {
    if spec.left && spec.zeroPad {
      LeftSigned(spec, v);
      ScaledClamp(Abs(v), v < 0, 10, FieldPad(spec, ConvertSigned(spec, v)));
    } else {
      SignedReadsBack(spec, v);
    }
  }

  lemma UnsignedComesBack(spec: Spec, v: nat)
    requires Taken(spec) && IsInteger(spec.conv) && spec.conv != Signed && (spec.alt ==> spec.conv == Unsigned) && v <= LONG_MAX
    ensures Meaning(Assemble(spec, ConvertUnsigned(spec, v)), BaseOf(spec.conv)) == v <==> !Spoiled(spec, ConvertUnsigned(spec, v), v)
  {
    var p, base := ConvertUnsigned(spec, v), BaseOf(spec.conv);
    if spec.left && spec.zeroPad {
      LeftNumber(spec, p, v, base, spec.lower);
      ScaledClamp(v, false, base, FieldPad(spec, p));
    } else {
      UnsignedReadsBack(spec, v);
    }
  }

  lemma HexComesBack(spec: Spec, v: nat)
    requires Taken(spec) && spec.conv == Hex && spec.alt && v <= LONG_MAX
    ensures Meaning(Assemble(spec, ConvertUnsigned(spec, v)), 0) == v <==> !Spoiled(spec, ConvertUnsigned(spec, v), v)
  {
    if spec.left && spec.zeroPad {
      var p := ConvertUnsigned(spec, v);
      LeftHex(spec, v);
      ScaledClamp(v, false, 16, FieldPad(spec, p));
    } else {
      AltHexReadsBack(spec, v);
    }
  }

  lemma LeftHex(spec: Spec, v: nat)
    requires ZerosBehind(spec) && spec.conv == Hex && spec.alt && v <= LONG_MAX
    ensures var p := ConvertUnsigned(spec, v); Meaning(Assemble(spec, p), 0) == Clamp(v * Pow(16, FieldPad(spec, p)))
  {
    var p := ConvertUnsigned(spec, v);
    LeftShape(spec, p);
    assert Blank(p) + RealSign(p) + Prefix(p) == Prefix(p);
    var ds := Payload(spec, p) + ZeroDigits(FieldPad(spec, p));
    if v == 0 {
      assert p.body == ['0'] == Digits(0, 8, spec.lower);
      ScaledReads(spec, p, 0, 8, spec.lower);
      assert [] + ds == Prefix(p) + ds;
      ReadsOctal([], ds, []);
    } else {
      ScaledReads(spec, p, v, 16, spec.lower);
      assert [] + Prefix(p) == ['0', p.prefix];
      ReadsHex([], p.prefix, ds, []);
    }
  }

  lemma OctalComesBack(spec: Spec, v: nat)
    requires Taken(spec) && spec.conv == Octal && spec.alt && v <= LONG_MAX
    ensures Meaning(Assemble(spec, ConvertUnsigned(spec, v)), 0) == v <==> !Spoiled(spec, ConvertUnsigned(spec, v), v)
  {
    if spec.left && spec.zeroPad {
      var p := ConvertUnsigned(spec, v);
      LeftOctal(spec, v);
      ScaledClamp(v, false, 8, FieldPad(spec, p));
    } else {
      AltOctalReadsBack(spec, v);
    }
  }

  lemma LeftOctal(spec: Spec, v: nat)
    requires ZerosBehind(spec) && spec.conv == Octal && spec.alt && v <= LONG_MAX
    ensures var p := ConvertUnsigned(spec, v); Meaning(Assemble(spec, p), 0) == Clamp(v * Pow(8, FieldPad(spec, p)))
  {
    var p := ConvertUnsigned(spec, v);
    LeftShape(spec, p);
    var ds := Payload(spec, p) + ZeroDigits(FieldPad(spec, p));
    assert Blank(p) + RealSign(p) + Prefix(p) == [];
    OctalScaledReads(spec, p, v);
    ReadsOctal([], ds, []);
  }

  lemma OctalScaledReads(spec: Spec, p: Piece, v: nat)
    requires spec.conv == Octal && p.body == (if v == 0 then Digits(0, 8, spec.lower) else ['0'] + Digits(v, 8, spec.lower))
    ensures var ds := Payload(spec, p) + ZeroDigits(FieldPad(spec, p));
      ds != [] && ds[0] == '0' && AllDigits(ds, 8) && Value(ds, 8) == v * Pow(8, FieldPad(spec, p))
  {
    assert Repeat('0', PrecPad(spec, p)) == ZeroDigits(PrecPad(spec, p));
    var ds := Digits(v, 8, spec.lower);
    ValueOfDigits(v, 8, spec.lower);
    assert ['0'] + ds == ZeroDigits(1) + ds == ZeroDigits(0) + (ZeroDigits(1) + ds);
    PaddedValue(0, 1, ds, 8);
    assert ZeroDigits(0) + Payload(spec, p) == Payload(spec, p);
    PaddedValue(0, PrecPad(spec, p), p.body, 8);
    TrailingZeros(Payload(spec, p), FieldPad(spec, p), 8);
  }

  // ---------- Format strings ----------

  /** What a specifier's text and arguments make of the flags once the stars are taken. */
  lemma StarsTaken(x: SpecText, args: Args)
    requires Proper(x) && IsInteger(ConversionOf(x.conv).value)
    ensures var (s, l) := TakeStars(SpecOf(x), args, 0);
      && Taken(s) && l == Stars(x)
      && s.conv == ConversionOf(x.conv).value && s.alt == ('#' in x.flags) && s.length == x.length
      && (s.left && s.zeroPad <==> TurnsLeft(x, args))
      && (TurnsLeft(x, args) ==> s.width == -args.num(0) && s == SpecOf(x).(widthOpt := Literal, width := -args.num(0), left := true))
  {
    Numbers(x);
  }

  /** A '0' flag that nothing in the format string cancels, and a width argument that justifies left. */
  predicate TurnsLeft(x: SpecText, args: Args)
  {
    && '0' in x.flags && '-' !in x.flags && (x.prec.NoPrec? || x.prec.PrecNegative?)
    && x.width.WidthStar? && args.num(0) < 0
  }

  /** How many characters the number takes by itself. */
  function Needed(x: SpecText, args: Args): nat
    requires Proper(x)
  {
    var p := Convert(SpecOf(x), args, Stars(x)).0;
    |Sign(p)| + |Prefix(p)| + Max(p.prec, |p.body|)
  }

  /** The texts that carry padding zeros behind a number they change. */
  ghost predicate Misread(x: SpecText, args: Args)
    requires Proper(x)
  {
    TurnsLeft(x, args) && -args.num(0) > Needed(x, args) && Printed(x, args) !in {0, LONG_MIN, LONG_MAX}
  }

  lemma MisreadIsSpoiled(x: SpecText, args: Args, s: Spec)
    requires Proper(x) && IsInteger(ConversionOf(x.conv).value) && s == TakeStars(SpecOf(x), args, 0).0
    ensures Misread(x, args) <==> Spoiled(s, Convert(s, args, Stars(x)).0, Printed(x, args))
  {
    StarsTaken(x, args);
    if TurnsLeft(x, args) {
      assert Convert(s, args, Stars(x)).0 == Convert(SpecOf(x), args, Stars(x)).0;
    }
  }

  /** The text a specifier prints and the specifier in force. */
  lemma OneConversion(x: SpecText, args: Args) returns (s: Spec)
    requires Proper(x) && IsInteger(ConversionOf(x.conv).value)
    ensures Taken(s) && s.conv == ConversionOf(x.conv).value && s.alt == ('#' in x.flags)
    ensures var v := Argument(x, args);
      var p := if s.conv == Signed then ConvertSigned(s, AsSigned(v, x.length)) else ConvertUnsigned(s, AsUnsigned(v, x.length));
      Render(Text(x), 0, args, 0) == Assemble(s, p) && (Misread(x, args) <==> Spoiled(s, p, Printed(x, args)))
  {
    RenderOne(x, args);
    StarsTaken(x, args);
    s := TakeStars(SpecOf(x), args, 0).0;
    MisreadIsSpoiled(x, args, s);
  }

  /**
    strtol in base 10 gives back the number a signed conversion printed, whatever the flags,
    width, precision and length modifier, unless the width is a negative argument that turns
    zero padding left.
   */
  lemma PrintThenParse(x: SpecText, args: Args)
    requires Proper(x) && ConversionOf(x.conv) == Some(Signed)
    ensures Meaning(Render(Text(x), 0, args, 0), 10) == Printed(x, args) <==> !Misread(x, args)
  {
    var s := OneConversion(x, args);
    SignedComesBack(s, Printed(x, args));
  }

  lemma OneUnsigned(x: SpecText, args: Args, conv: Conversion) returns (s: Spec, u: nat)
    requires Proper(x) && ConversionOf(x.conv) == Some(conv) && IsInteger(conv) && conv != Signed
    ensures Taken(s) && s.conv == conv && s.alt == ('#' in x.flags) && u == Printed(x, args)
    ensures Render(Text(x), 0, args, 0) == Assemble(s, ConvertUnsigned(s, u))
    ensures Misread(x, args) <==> Spoiled(s, ConvertUnsigned(s, u), u)
  {
    s := OneConversion(x, args);
    u := AsUnsigned(Argument(x, args), x.length);
  }

  /** Decimal, octal and hexadecimal without '#', read in that base. */
  lemma PrintThenParseUnsigned(x: SpecText, args: Args, conv: Conversion)
    requires Proper(x) && ConversionOf(x.conv) == Some(conv) && IsInteger(conv) && conv != Signed
    requires ('#' in x.flags ==> conv == Unsigned) && Printed(x, args) <= LONG_MAX
    ensures Meaning(Render(Text(x), 0, args, 0), BaseOf(conv)) == Printed(x, args) <==> !Misread(x, args)
  {
    var s, u := OneUnsigned(x, args, conv);
    UnsignedComesBack(s, u);
  }

  /** With the '#' flag, base 0 gives back numbers printed in hexadecimal. */
  lemma PrintThenParseHex(x: SpecText, args: Args)
    requires Proper(x) && ConversionOf(x.conv) == Some(Hex) && '#' in x.flags && Printed(x, args) <= LONG_MAX
    ensures Meaning(Render(Text(x), 0, args, 0), 0) == Printed(x, args) <==> !Misread(x, args)
  {
    var s, u := OneUnsigned(x, args, Hex);
    HexComesBack(s, u);
  }

  /** The same in octal. */
  lemma PrintThenParseOctal(x: SpecText, args: Args)
    requires Proper(x) && ConversionOf(x.conv) == Some(Octal) && '#' in x.flags && Printed(x, args) <= LONG_MAX
    ensures Meaning(Render(Text(x), 0, args, 0), 0) == Printed(x, args) <==> !Misread(x, args)
  {
    var s, u := OneUnsigned(x, args, Octal);
    OctalComesBack(s, u);
  }

  /** A width that stands in the format string never spoils the number. */
  lemma LiteralWidthIsSafe(x: SpecText, args: Args)
    requires Proper(x) && !x.width.WidthStar?
    ensures !Misread(x, args)
  {
  }

  lemma ShortNumber(spec: Spec, args: Args, v: int)
    requires spec.conv == Signed && spec.prepend == '\0' && spec.precOpt == NoOpt && spec.prec == 0
    requires args.num(1) == v && 0 < v < 100
    ensures AsSigned(v, spec.length) == v
    ensures var p := Convert(spec, args, 1).0; |Sign(p)| + |Prefix(p)| + Max(p.prec, |p.body|) <= 2
  {
    assert Pow(10, 2) == 100;
    DigitCount(v, 10, true, 2);
  }

  /** A number of one or two digits in a wider field is never what strtol reads. */
  lemma StarWidthMisreads(x: SpecText, args: Args)
    requires Proper(x) && x.conv == 'd' && TurnsLeft(x, args) && x.prec.NoPrec? && '+' !in x.flags && ' ' !in x.flags
    requires args.num(0) < -2 && 0 < args.num(1) < 100
    ensures Meaning(Render(Text(x), 0, args, 0), 10) != args.num(1)
  {
    ShortNumber(SpecOf(x), args, args.num(1));
    PrintThenParse(x, args);
  }

  /** "%0*ld" is such a format string. */
  lemma StarWidthExample(x: SpecText, args: Args)
    requires x == SpecText(['0'], WidthStar, NoPrec, Long, 'd') && args.num(0) == -5
    ensures Text(x) == "%0*ld" && Proper(x) && TurnsLeft(x, args)
  {
  }

  // ---------- The text is a C string ----------

  lemma AssembledIsCString(spec: Spec, p: Piece)
    requires IsCString(p.body)
    ensures IsCString(Assemble(spec, p))
  {
    assert IsCString(Sign(p)) && IsCString(Prefix(p)) && IsCString(Payload(spec, p));
    assert PadChar(spec, p) != '\0' ==> IsCString(Repeat(PadChar(spec, p), FieldPad(spec, p)));
  }

  lemma DigitsAreCString(n: nat, base: nat, lower: bool)
    requires 2 <= base <= 16
    ensures IsCString(Digits(n, base, lower))
  {
    ValueOfDigits(n, base, lower);
    assert !IsDigit('\0', base);
  }

  lemma SignedIsCString(spec: Spec, i: int)
    ensures IsCString(Assemble(spec, ConvertSigned(spec, i)))
  {
    DigitsAreCString(Abs(i), 10, true);
    AssembledIsCString(spec, ConvertSigned(spec, i));
  }

  lemma UnsignedIsCString(spec: Spec, u: nat)
    ensures IsCString(Assemble(spec, ConvertUnsigned(spec, u)))
  {
    DigitsAreCString(u, BaseOf(spec.conv), spec.lower);
    AssembledIsCString(spec, ConvertUnsigned(spec, u));
  }

  /** What an integer conversion prints holds no terminator, so strtol sees all of it. */
  lemma PrintedIsCString(x: SpecText, args: Args)
    requires Proper(x) && IsInteger(ConversionOf(x.conv).value)
    ensures IsCString(Render(Text(x), 0, args, 0))
  {
    var s := OneConversion(x, args);
    SignedIsCString(s, AsSigned(Argument(x, args), x.length));
    UnsignedIsCString(s, AsUnsigned(Argument(x, args), x.length));
  }

  // ---------- All integer conversions ----------

  /** The base in which strtol is to read: that of the conversion, or 0 where '#' makes the text say it. */
  function ReadBase(x: SpecText): nat
  {
    if x.conv in {'o', 'x', 'X'} && '#' in x.flags then 0
    else if x.conv == 'o' then 8
    else if x.conv in {'x', 'X'} then 16
    else 10
  }

  lemma ReadBaseIs(x: SpecText, conv: Conversion)
    requires ConversionOf(x.conv) == Some(conv) && IsInteger(conv)
    ensures ReadBase(x) == if (conv == Octal || conv == Hex) && '#' in x.flags then 0 else BaseOf(conv)
  {
  }

  /** Integer conversions of numbers that a `long` can hold. */
  ghost predicate Telling(x: SpecText, args: Args)
  {
    Proper(x) && IsInteger(ConversionOf(x.conv).value) && Printed(x, args) <= LONG_MAX
  }

  /**
    strtol gives back the number that was printed, whatever the flags, width, precision and
    length modifier, unless the width is a negative argument that turns zero padding left.
   */
  lemma ReadsBackIff(x: SpecText, args: Args)
    requires Telling(x, args)
    ensures IsCString(Render(Text(x), 0, args, 0))
    ensures Meaning(Render(Text(x), 0, args, 0), ReadBase(x)) == Printed(x, args) <==> !Misread(x, args)
    ensures !x.width.WidthStar? ==> Meaning(Render(Text(x), 0, args, 0), ReadBase(x)) == Printed(x, args)
  {
    PrintedIsCString(x, args);
    ReadsBackAs(x, args, ConversionOf(x.conv).value);
    if !x.width.WidthStar? {
      LiteralWidthIsSafe(x, args);
    }
  }

  lemma ReadsBackAs(x: SpecText, args: Args, conv: Conversion)
    requires Proper(x) && ConversionOf(x.conv) == Some(conv) && IsInteger(conv) && Printed(x, args) <= LONG_MAX
    ensures Meaning(Render(Text(x), 0, args, 0), ReadBase(x)) == Printed(x, args) <==> !Misread(x, args)
  {
    ReadBaseIs(x, conv);
    if conv == Signed {
      PrintThenParse(x, args);
    } else if '#' !in x.flags || conv == Unsigned {
      PrintThenParseUnsigned(x, args, conv);
    } else if conv == Octal {
      PrintThenParseOctal(x, args);
    } else {
      PrintThenParseHex(x, args);
    }
  }

  /** A signed argument in the range of its type is the number printed. */
  lemma SignedInRange(x: SpecText, args: Args)
    requires ConversionOf(x.conv) == Some(Signed)
    requires var v := Argument(x, args);
      match x.length
      case Byte => -0x80 <= v < 0x80
      case Short => -0x8000 <= v < 0x8000
      case Plain => -0x8000_0000 <= v < 0x8000_0000
      case _ => -0x8000_0000_0000_0000 <= v < 0x8000_0000_0000_0000
    ensures Printed(x, args) == Argument(x, args)
  {
  }

  /** And so is an unsigned one. */
  lemma UnsignedInRange(x: SpecText, args: Args)
    requires ConversionOf(x.conv) != Some(Signed)
    requires var v := Argument(x, args);
      match x.length
      case Byte => 0 <= v < 0x100
      case Short => 0 <= v < 0x1_0000
      case Plain => 0 <= v < 0x1_0000_0000
      case _ => 0 <= v < 0x1_0000_0000_0000_0000
    ensures Printed(x, args) == Argument(x, args)
  {
  }

  /** A signed number in the range of its type is printed so that strtol reads it in base 10. */
  lemma SignedRoundTrip(x: SpecText, args: Args, v: int)
    requires Proper(x) && x.conv in {'d', 'i'} && !x.width.WidthStar? && !x.prec.PrecStar? && v == args.num(0)
    requires match x.length
      case Byte => -0x80 <= v < 0x80
      case Short => -0x8000 <= v < 0x8000
      case Plain => -0x8000_0000 <= v < 0x8000_0000
      case _ => -0x8000_0000_0000_0000 <= v < 0x8000_0000_0000_0000
    ensures Meaning(Render(Text(x), 0, args, 0), 10) == v
  {
    SignedInRange(x, args);
    PrintThenParse(x, args);
    LiteralWidthIsSafe(x, args);
  }

  /** An unsigned one so that strtol reads it in the base of the conversion, while a `long` can hold it. */
  lemma UnsignedRoundTrip(x: SpecText, args: Args, v: int)
    requires Proper(x) && x.conv in {'u', 'o', 'x', 'X'} && '#' !in x.flags && !x.width.WidthStar? && !x.prec.PrecStar? && v == args.num(0)
    requires match x.length
      case Byte => 0 <= v < 0x100
      case Short => 0 <= v < 0x1_0000
      case Plain => 0 <= v < 0x1_0000_0000
      case _ => 0 <= v < 0x8000_0000_0000_0000
    ensures Meaning(Render(Text(x), 0, args, 0), if x.conv == 'u' then 10 else if x.conv == 'o' then 8 else 16) == v
  {
    UnsignedInRange(x, args);
    PrintThenParseUnsigned(x, args, ConversionOf(x.conv).value);
    LiteralWidthIsSafe(x, args);
  }
}
