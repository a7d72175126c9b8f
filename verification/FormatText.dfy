/** What one conversion prints, and that strtol reads it back. */
module FormatText {
  import opened Sequences
  import opened Numerals
  import opened Strtol
  import opened FormatSpec

  /** The variable arguments: the k-th one read as an integer or as a string. */
  datatype Args = Args(nums: seq<int>, strs: seq<seq<char>>) {
    function num(k: nat): int { if k < |nums| then nums[k] else 0 }

    function str(k: nat): seq<char> { if k < |strs| then strs[k] else [] }
  }

  const BUFFER: nat := 23

  function Max(x: int, y: int): int
  {
    if x > y then x else y
  }

  function Repeat(c: char, k: int): (s: seq<char>)
    ensures |s| == Max(0, k) && forall i :: 0 <= i < |s| ==> s[i] == c
  {
    if k <= 0 then [] else Repeat(c, k - 1) + [c]
  }

  // ---------- Arguments ----------

  function Width(length: LengthModifier): nat
  {
    match length
    case Byte => 0x100
    case Short => 0x1_0000
    case Plain => 0x1_0000_0000
    case _ => 0x1_0000_0000_0000_0000
  }

  /** The argument cast to the unsigned type of its length modifier. */
  function AsUnsigned(v: int, length: LengthModifier): (u: nat)
    ensures u < 0x1_0000_0000_0000_0000
  {
    v % Width(length)
  }

  /** The argument cast to the signed type of its length modifier. */
  function AsSigned(v: int, length: LengthModifier): (i: int)
    ensures -0x8000_0000_0000_0000 <= i < 0x8000_0000_0000_0000
  {
    var u := v % Width(length);
    if u < Width(length) / 2 then u else u - Width(length)
  }

  /** Star width and star precision come out of the arguments first. */
  function TakeStars(spec: Spec, args: Args, k: nat): (Spec, nat)
  {
    var (s, l) :=
      if spec.widthOpt == Star then
        var w := args.num(k);
        (if w < 0 then spec.(widthOpt := Literal, width := -w, left := true) else spec.(widthOpt := Literal, width := w), k + 1)
      else (spec, k);
    if s.precOpt == Star then
      var p := args.num(l);
      (s.(precOpt := if p >= 0 then Literal else NoOpt, prec := p), l + 1)
    else (s, l)
  }

  // ---------- One conversion ----------

  /** Sign, prefix letter ('\0' for none), text of the value, whether it is zero, and the precision in force. */
  datatype Piece = Piece(sign: char, prefix: char, body: seq<char>, zero: bool, prec: int)

  function Abs(i: int): nat
  {
    if i < 0 then -i else i
  }

  function ConvertSigned(spec: Spec, val: int): Piece
  {
    var sign := if val < 0 then '-' else spec.prepend;
    var silent := val == 0 && spec.precOpt == Literal && spec.prec == 0;
    Piece(sign, '\0', if silent then [] else Digits(Abs(val), 10, true), val == 0, spec.prec)
  }

  function BaseOf(conv: Conversion): (b: nat)
    ensures b in {8, 10, 16}
  {
    if conv == Octal then 8 else if conv == Hex then 16 else 10
  }

  function ConvertUnsigned(spec: Spec, val: nat): Piece
  {
    var silent := val == 0 && spec.precOpt == Literal && spec.prec == 0;
    var body := if silent then [] else Digits(val, BaseOf(spec.conv), spec.lower);
    var octal := spec.alt && spec.conv == Octal;
    Piece('\0',
          if val != 0 && spec.alt && spec.conv == Hex then (if spec.lower then 'x' else 'X') else '\0',
          if val != 0 && octal then ['0'] + body else body,
          val == 0,
          if silent && octal then 1 else spec.prec)
  }

  /** As much of a string as the precision allows. */
  function ConvertString(spec: Spec, s: seq<char>): Piece
  {
    var n := if spec.precOpt == NoOpt || |s| <= spec.prec then |s| else Max(0, spec.prec);
    Piece('\0', '\0', s[..n], false, spec.prec)
  }

  function Convert(spec: Spec, args: Args, k: nat): (Piece, nat)
  {
    match spec.conv
    case Percent => (Piece('\0', '\0', ['%'], false, spec.prec), k)
    case Char => (Piece('\0', '\0', [(args.num(k) % 0x100) as char], false, spec.prec), k + 1)
    case String => (ConvertString(spec, args.str(k)), k + 1)
    case Signed => (ConvertSigned(spec, AsSigned(args.num(k), spec.length)), k + 1)
    case Pointer => (Piece('\0', 'x', Digits(args.num(k) % 0x1_0000_0000_0000_0000, 16, true), false, spec.prec), k + 1)
    case _ => (ConvertUnsigned(spec, AsUnsigned(args.num(k), spec.length)), k + 1)
  }

  function Sign(p: Piece): seq<char>
  {
    if p.sign == '\0' then [] else [p.sign]
  }

  function Prefix(p: Piece): seq<char>
  {
    if p.prefix == '\0' then [] else ['0', p.prefix]
  }

  /** Zeros that make up the precision. */
  function PrecPad(spec: Spec, p: Piece): nat
  {
    if spec.conv == String then 0 else Max(0, p.prec - |p.body|)
  }

  function FieldPad(spec: Spec, p: Piece): nat
  {
    Max(0, spec.width - |p.body| - |Sign(p)| - |Prefix(p)| - PrecPad(spec, p))
  }

  /** The padding character; '\0' for no padding at all. */
  function PadChar(spec: Spec, p: Piece): char
  {
    if spec.widthOpt != Literal then '\0'
    else if !spec.zeroPad then ' '
    else if spec.conv == String || spec.conv == Char || spec.conv == Percent then '\0'
    else if spec.precOpt == Literal && p.prec == 0 && p.zero then ' '
    else '0'
  }

  function Payload(spec: Spec, p: Piece): seq<char>
  {
    Repeat('0', PrecPad(spec, p)) + p.body
  }

  /** Everything one conversion prints. */
  function Assemble(spec: Spec, p: Piece): seq<char>
  {
    var pad, fill := PadChar(spec, p), Repeat(PadChar(spec, p), FieldPad(spec, p));
    if !spec.left && pad == '0' then Sign(p) + Prefix(p) + fill + Payload(spec, p)
    else if !spec.left && pad != '\0' then fill + Prefix(p) + Sign(p) + Payload(spec, p)
    else if pad != '\0' then Prefix(p) + Sign(p) + Payload(spec, p) + fill
    else Prefix(p) + Sign(p) + Payload(spec, p)
  }

  /** An integer conversion prints exactly as many characters as width, precision, digits, sign and prefix call for. */
  lemma PrintedLength(spec: Spec, p: Piece)
    requires IsInteger(spec.conv) && (spec.widthOpt == Literal || (spec.widthOpt == NoOpt && spec.width == 0))
    ensures |Assemble(spec, p)| == Max(spec.width, |Sign(p)| + |Prefix(p)| + Max(p.prec, |p.body|))
  {
  }

  // ---------- The conversion buffer is large enough ----------

  lemma Powers()
    ensures 0x1_0000_0000_0000_0000 <= Pow(8, 22) && 0x1_0000_0000_0000_0000 <= Pow(10, 20) && 0x1_0000_0000_0000_0000 <= Pow(16, 16)
  {
    assert Pow(8, 3) == 0x200 && Pow(10, 5) == 100_000 && Pow(16, 4) == 0x1_0000;
    PowSum(8, 3, 3);
    PowSum(8, 6, 6);
    PowSum(8, 12, 6);
    PowSum(8, 18, 3);
    PowSum(8, 21, 1);
    PowSum(10, 5, 5);
    PowSum(10, 10, 10);
    PowSum(16, 4, 4);
    PowSum(16, 8, 8);
  }

  lemma DigitsFit(n: nat, base: nat, lower: bool)
    requires n < 0x1_0000_0000_0000_0000 && base in {8, 10, 16}
    ensures |Digits(n, base, lower)| <= 22
  {
    Powers();
    DigitCount(n, base, lower, if base == 8 then 22 else if base == 10 then 20 else 16);
  }

  // ---------- Reading back ----------

  predicate IsSign(s: seq<char>)
  {
    s == [] || s == ['-'] || s == ['+']
  }

  lemma NumberAt(t: seq<char>, a: nat, b: nat, k: nat, base: nat)
    requires 2 <= base <= 36 && a <= b < k <= |t| && (forall l :: 0 <= l < a ==> IsSpace(t[l])) && IsSign(t[a..b])
    requires (forall l :: b <= l < k ==> IsDigit(t[l], base)) && !IsDigit(At(t, k), base) && !(base == 16 && HexPrefix(t, b))
    ensures Meaning(t, base) == Clamp((if t[a..b] == ['-'] then -1 else 1) * Value(t[b..k], base))
  {
    assert IsDigit(t[b], base);
    assert a < b ==> t[a..b] == [t[a]];
    SkipsTo(t, 0, a);
    RunsTo(t, b, k, base);
  }

  predicate Blanks(tail: seq<char>)
  {
    tail == [] || tail[0] == ' '
  }

  lemma NumberIn(t: seq<char>, a: nat, b: nat, k: nat, ds: seq<char>, base: nat)
    requires 2 <= base <= 16 && a <= b < k <= |t| && (forall l :: 0 <= l < a ==> IsSpace(t[..a][l])) && IsSign(t[a..b])
    requires t[b..k] == ds && AllDigits(ds, base) && Blanks(t[k..])
    ensures Meaning(t, base) == Clamp((if t[a..b] == ['-'] then -1 else 1) * Value(ds, base))
  {
    assert forall l :: 0 <= l < a ==> t[l] == t[..a][l];
    assert forall l :: b <= l < k ==> t[l] == ds[l - b];
    assert k < |t| ==> t[k] == t[k..][0];
    assert b + 1 < k ==> IsDigit(t[b + 1], base);
    NumberAt(t, a, b, k, base);
  }

  /** Spaces, a sign, digits, and blanks if anything. */
  lemma ReadsNumber(spaces: seq<char>, sign: seq<char>, ds: seq<char>, tail: seq<char>, base: nat)
    requires (forall l :: 0 <= l < |spaces| ==> IsSpace(spaces[l])) && IsSign(sign)
    requires 2 <= base <= 16 && ds != [] && AllDigits(ds, base) && Blanks(tail)
    ensures Meaning(spaces + sign + ds + tail, base) == Clamp((if sign == ['-'] then -1 else 1) * Value(ds, base))
  {
    FourSlices(spaces, sign, ds, tail);
    NumberIn(spaces + sign + ds + tail, |spaces|, |spaces| + |sign|, |spaces| + |sign| + |ds|, ds, base);
  }

  /** Text without a digit reads as 0. */
  lemma ReadsNothing(t: seq<char>, base: nat)
    requires base <= 36 && base != 1
    requires forall l :: 0 <= l < |t| ==> !IsDigit(t[l], 36)
    ensures Meaning(t, base) == 0
  {
    var r := SubjectOf(t, base);
    assert !IsDigit(At(t, r.from), 36);
    RunsTo(t, r.from, r.from, r.base);
  }

  /** A specifier as a format string without stars can give it. */
  predicate Tidy(spec: Spec)
  {
    && !(spec.left && spec.zeroPad)
    && spec.prepend in {'\0', ' ', '+'}
    && spec.widthOpt != Star && spec.precOpt != Star
  }

  /** The blank a space flag prints belongs to the blanks in front. */
  function Blank(p: Piece): seq<char>
  {
    if p.sign == ' ' then [' '] else []
  }

  function RealSign(p: Piece): seq<char>
  {
    if p.sign == ' ' then [] else Sign(p)
  }

  function Fill(spec: Spec, p: Piece): seq<char>
  {
    Repeat(PadChar(spec, p), FieldPad(spec, p))
  }

  /** Blanks in front of the number. */
  function Front(spec: Spec, p: Piece): seq<char>
  {
    if !spec.left && PadChar(spec, p) == ' ' then Fill(spec, p) else []
  }

  /** Padding zeros between sign or prefix and payload. */
  function ZeroFill(spec: Spec, p: Piece): seq<char>
  {
    if !spec.left && PadChar(spec, p) == '0' then Fill(spec, p) else []
  }

  /** Blanks behind the number. */
  function Back(spec: Spec, p: Piece): seq<char>
  {
    if spec.left && PadChar(spec, p) == ' ' then Fill(spec, p) else []
  }

  lemma NumberIsPadded(spec: Spec, p: Piece)
    ensures ZeroFill(spec, p) + Payload(spec, p) == ZeroDigits(|ZeroFill(spec, p)|) + (ZeroDigits(PrecPad(spec, p)) + p.body)
  {
    assert Repeat('0', PrecPad(spec, p)) == ZeroDigits(PrecPad(spec, p));
    assert ZeroFill(spec, p) == ZeroDigits(|ZeroFill(spec, p)|);
  }

  /** Padding zeros, precision zeros and digits read as the number converted. */
  lemma NumberReads(spec: Spec, p: Piece, n: nat, base: nat, lower: bool)
    requires 2 <= base <= 16 && p.body == Digits(n, base, lower)
    ensures var ds := ZeroFill(spec, p) + Payload(spec, p); ds != [] && AllDigits(ds, base) && Value(ds, base) == n
  {
    NumberIsPadded(spec, p);
    ValueOfDigits(n, base, lower);
    PaddedValue(|ZeroFill(spec, p)|, PrecPad(spec, p), p.body, base);
  }

  lemma SignParts(p: Piece)
    ensures Blank(p) + RealSign(p) == Sign(p)
    ensures p.sign == '\0' || p.prefix == '\0' ==> Prefix(p) + Sign(p) == Sign(p) + Prefix(p)
  {
  }

  lemma Joins(f: seq<char>, b: seq<char>, r: seq<char>, x: seq<char>, z: seq<char>, y: seq<char>, k: seq<char>)
    ensures (f + b) + r + x + (z + y) + k == f + ((b + r) + x) + z + y + k
  {
  }

  /** How the text of an integer conversion splits. */
  lemma Shape(spec: Spec, p: Piece)
    requires Tidy(spec) && IsInteger(spec.conv) && (p.sign == '\0' || p.prefix == '\0')
    ensures Assemble(spec, p) == (Front(spec, p) + Blank(p)) + RealSign(p) + Prefix(p) + (ZeroFill(spec, p) + Payload(spec, p)) + Back(spec, p)
  {
    SignParts(p);
    Joins(Front(spec, p), Blank(p), RealSign(p), Prefix(p), ZeroFill(spec, p), Payload(spec, p), Back(spec, p));
    var lead := Sign(p) + Prefix(p);
    assert [] + lead == lead && lead + [] == lead;
    assert Fill(spec, p) + Prefix(p) + Sign(p) == Fill(spec, p) + lead;
    assert Prefix(p) + Sign(p) + Payload(spec, p) == lead + Payload(spec, p);
    assert lead + Payload(spec, p) + [] == lead + Payload(spec, p);
    assert lead + Fill(spec, p) + Payload(spec, p) + [] == lead + Fill(spec, p) + Payload(spec, p);
    assert Fill(spec, p) + lead + [] + Payload(spec, p) + [] == Fill(spec, p) + lead + Payload(spec, p);
  }

  ghost predicate NoDigit(s: seq<char>)
  {
    forall l :: 0 <= l < |s| ==> !IsDigit(s[l], 36)
  }

  lemma NoDigitJoined(a: seq<char>, b: seq<char>)
    requires NoDigit(a) && NoDigit(b)
    ensures NoDigit(a + b)
  {
  }

  lemma NoDigitParts(spec: Spec, p: Piece)
    requires p.sign in {'\0', ' ', '+'}
    ensures NoDigit(Front(spec, p)) && NoDigit(Blank(p)) && NoDigit(RealSign(p)) && NoDigit(Back(spec, p))
  {
  }

  /** A zero that precision 0 silences prints blanks and a sign at most. */
  lemma SilentReads(spec: Spec, p: Piece, base: nat)
    requires Tidy(spec) && IsInteger(spec.conv) && p.prefix == '\0' && p.sign in {'\0', ' ', '+'} && base <= 36 && base != 1
    requires p.body == [] && p.zero && p.prec == 0 && spec.precOpt == Literal
    ensures Meaning(Assemble(spec, p), base) == 0
  {
    Shape(spec, p);
    assert PadChar(spec, p) != '0' && Payload(spec, p) == [];
    var lead := (Front(spec, p) + Blank(p)) + RealSign(p);
    assert Assemble(spec, p) == lead + Back(spec, p);
    NoDigitParts(spec, p);
    NoDigitJoined(Front(spec, p), Blank(p));
    NoDigitJoined(Front(spec, p) + Blank(p), RealSign(p));
    NoDigitJoined(lead, Back(spec, p));
    ReadsNothing(Assemble(spec, p), base);
  }

  /** The same without a prefix, with what is known about the parts. */
  lemma SignedShape(spec: Spec, p: Piece)
    requires Tidy(spec) && IsInteger(spec.conv) && p.prefix == '\0' && p.sign in {'\0', ' ', '+', '-'}
    ensures Assemble(spec, p) == (Front(spec, p) + Blank(p)) + RealSign(p) + (ZeroFill(spec, p) + Payload(spec, p)) + Back(spec, p)
    ensures forall l :: 0 <= l < |Front(spec, p) + Blank(p)| ==> IsSpace((Front(spec, p) + Blank(p))[l])
    ensures IsSign(RealSign(p)) && (RealSign(p) == ['-'] <==> p.sign == '-')
    ensures Blanks(Back(spec, p))
  {
    Shape(spec, p);
    DropEmpty(Front(spec, p) + Blank(p) + RealSign(p), Prefix(p));
    BlanksAreSpaces(spec, p);
  }

  lemma DropEmpty(a: seq<char>, b: seq<char>)
    requires b == []
    ensures a + b == a
  {
  }

  lemma BlanksAreSpaces(spec: Spec, p: Piece)
    ensures forall l :: 0 <= l < |Front(spec, p) + Blank(p)| ==> IsSpace((Front(spec, p) + Blank(p))[l])
    ensures Back(spec, p) == [] || Back(spec, p)[0] == ' '
  {
  }

  function Negated(n: nat, negative: bool): int
  {
    if negative then -(n as int) else n
  }

  lemma NumberText(spec: Spec, p: Piece, n: nat, base: nat, lower: bool)
    requires Tidy(spec) && IsInteger(spec.conv) && p.prefix == '\0' && p.sign in {'\0', ' ', '+', '-'}
    requires 2 <= base <= 16 && p.body == Digits(n, base, lower)
    ensures Meaning(Assemble(spec, p), base) == Clamp(Negated(n, p.sign == '-'))
  {
    SignedShape(spec, p);
    NumberReads(spec, p, n, base, lower);
    var spaces, sign, ds, tail := Front(spec, p) + Blank(p), RealSign(p), ZeroFill(spec, p) + Payload(spec, p), Back(spec, p);
    ReadsNumber(spaces, sign, ds, tail, base);
  }

  /** strtol in base 10 undoes every signed 64-bit conversion. */
  lemma SignedReadsBack(spec: Spec, v: int)
    requires Tidy(spec) && spec.conv == Signed && LONG_MIN <= v <= LONG_MAX
    ensures Meaning(Assemble(spec, ConvertSigned(spec, v)), 10) == v
  {
    var p := ConvertSigned(spec, v);
    if p.body == [] {
      SilentReads(spec, p, 10);
    } else {
      NumberText(spec, p, Abs(v), 10, true);
    }
  }

  /** strtol in its own base undoes every unsigned conversion without '#' of a number a `long` can hold. */
  lemma UnsignedReadsBack(spec: Spec, v: nat)
    requires Tidy(spec) && IsInteger(spec.conv) && spec.conv != Signed && (spec.alt ==> spec.conv == Unsigned) && v <= LONG_MAX
    ensures Meaning(Assemble(spec, ConvertUnsigned(spec, v)), BaseOf(spec.conv)) == v
  {
    var p := ConvertUnsigned(spec, v);
    if p.body == [] {
      SilentReads(spec, p, BaseOf(spec.conv));
    } else {
      NumberText(spec, p, v, BaseOf(spec.conv), spec.lower);
    }
  }

  // ---------- Base 0 ----------

  /** Blanks, "0x" and hexadecimal digits. */
  lemma ReadsHex(spaces: seq<char>, x: char, ds: seq<char>, tail: seq<char>)
    requires (forall l :: 0 <= l < |spaces| ==> IsSpace(spaces[l])) && (x == 'x' || x == 'X')
    requires AllDigits(ds, 16) && !IsDigit(At(tail, 0), 16)
    ensures Meaning(spaces + ['0', x] + ds + tail, 0) == Clamp(Value(ds, 16))
  {
    var t := spaces + ['0', x] + ds + tail;
    var a := |spaces|;
    SkipsTo(t, 0, a);
    assert t[a] == '0' && t[a + 1] == x;
    var k := a + 2 + |ds|;
    assert forall l :: a + 2 <= l < k ==> t[l] == ds[l - a - 2];
    assert At(t, k) == At(tail, 0);
    RunsTo(t, a + 2, k, 16);
    assert t[a + 2..k] == ds;
  }

  /** An octal number is not taken for a hexadecimal one. */
  lemma OctalSubject(t: seq<char>, a: nat)
    requires a < |t| && (forall l :: 0 <= l < a ==> IsSpace(t[l])) && t[a] == '0'
    requires At(t, a + 1) != 'x' && At(t, a + 1) != 'X'
    ensures SubjectOf(t, 0) == Subject(1, 8, a + 1)
  {
    SkipsTo(t, 0, a);
  }

  lemma NextIsNoX(ds: seq<char>, tail: seq<char>)
    requires ds != [] && AllDigits(ds, 8) && (tail == [] || tail[0] == ' ')
    ensures At(ds + tail, 1) != 'x' && At(ds + tail, 1) != 'X'
  {
    if |ds| > 1 {
      assert IsDigit(ds[1], 8);
    } else {
      assert At(ds + tail, 1) == At(tail, 0);
    }
  }

  /** Blanks and octal digits that begin with 0. */
  lemma ReadsOctal(spaces: seq<char>, ds: seq<char>, tail: seq<char>)
    requires forall l :: 0 <= l < |spaces| ==> IsSpace(spaces[l])
    requires ds != [] && ds[0] == '0' && AllDigits(ds, 8) && (tail == [] || tail[0] == ' ')
    ensures Meaning(spaces + ds + tail, 0) == Clamp(Value(ds, 8))
  {
    var t := spaces + ds + tail;
    var a, k := |spaces|, |spaces| + |ds|;
    NextIsNoX(ds, tail);
    assert At(t, a + 1) == At(ds + tail, 1);
    OctalSubject(t, a);
    assert forall l :: a <= l < k ==> t[l] == ds[l - a];
    assert At(t, k) == At(tail, 0);
    RunsTo(t, a + 1, k, 8);
    assert t[a + 1..k] == ds[1..];
    DropZero(ds);
  }

  lemma DropZero(ds: seq<char>)
    requires ds != [] && ds[0] == '0' && AllDigits(ds, 8)
    ensures Value(ds, 8) == Value(ds[1..], 8)
  {
    assert ZeroDigits(1) == ['0'];
    assert ds == ZeroDigits(1) + ds[1..];
    LeadingZeros(1, ds[1..], 8);
  }

  /** A zero printed in any base reads as 0. */
  lemma ZeroReads(spec: Spec, p: Piece)
    requires Tidy(spec) && IsInteger(spec.conv) && p.sign == '\0' && p.prefix == '\0' && p.body == ['0']
    ensures Meaning(Assemble(spec, p), 0) == 0
  {
    Shape(spec, p);
    NumberReads(spec, p, 0, 8, true);
    assert Front(spec, p) + Blank(p) + RealSign(p) + Prefix(p) == Front(spec, p);
    ReadsOctal(Front(spec, p), ZeroFill(spec, p) + Payload(spec, p), Back(spec, p));
  }

  /** strtol in base 0 undoes every '#' hexadecimal conversion of a number it can hold. */
  lemma AltHexReadsBack(spec: Spec, v: nat)
    requires Tidy(spec) && spec.conv == Hex && spec.alt && v <= LONG_MAX
    ensures Meaning(Assemble(spec, ConvertUnsigned(spec, v)), 0) == v
  {
    var p := ConvertUnsigned(spec, v);
    if p.body == [] {
      SilentReads(spec, p, 0);
    } else if v == 0 {
      assert p.body == ['0'];
      ZeroReads(spec, p);
    } else {
      Shape(spec, p);
      NumberReads(spec, p, v, 16, spec.lower);
      assert Front(spec, p) + Blank(p) + RealSign(p) == Front(spec, p);
      ReadsHex(Front(spec, p), p.prefix, ZeroFill(spec, p) + Payload(spec, p), Back(spec, p));
    }
  }

  /** The same for '#' octal conversions. */
  lemma AltOctalReadsBack(spec: Spec, v: nat)
    requires Tidy(spec) && spec.conv == Octal && spec.alt && v <= LONG_MAX
    ensures Meaning(Assemble(spec, ConvertUnsigned(spec, v)), 0) == v
  {
    var p := ConvertUnsigned(spec, v);
    if p.body == [] {
      SameText(spec, p, p.(body := ['0']));
      ZeroReads(spec, p.(body := ['0']));
    } else if v == 0 {
      assert p.body == ['0'];
      ZeroReads(spec, p);
    } else {
      OctalTextReads(spec, p, v);
    }
  }

  lemma OctalTextReads(spec: Spec, p: Piece, n: nat)
    requires Tidy(spec) && IsInteger(spec.conv) && p.sign == '\0' && p.prefix == '\0' && n <= LONG_MAX
    requires p.body == ['0'] + Digits(n, 8, spec.lower)
    ensures Meaning(Assemble(spec, p), 0) == n
  {
    Shape(spec, p);
    OctalNumberReads(spec, p, n);
    assert Front(spec, p) + Blank(p) + RealSign(p) + Prefix(p) == Front(spec, p);
    ReadsOctal(Front(spec, p), ZeroFill(spec, p) + Payload(spec, p), Back(spec, p));
  }

  lemma OctalNumberReads(spec: Spec, p: Piece, n: nat)
    requires p.body == ['0'] + Digits(n, 8, spec.lower)
    ensures var ds := ZeroFill(spec, p) + Payload(spec, p); ds != [] && ds[0] == '0' && AllDigits(ds, 8) && Value(ds, 8) == n
  {
    NumberIsPadded(spec, p);
    ValueOfDigits(n, 8, spec.lower);
    var ds := Digits(n, 8, spec.lower);
    assert p.body == ZeroDigits(1) + ds == ZeroDigits(0) + (ZeroDigits(1) + ds);
    PaddedValue(0, 1, ds, 8);
    PaddedValue(|ZeroFill(spec, p)|, PrecPad(spec, p), p.body, 8);
  }

  lemma SameText(spec: Spec, p: Piece, q: Piece)
    requires spec.conv != String && q == p.(body := ['0']) && p.body == [] && p.prec == 1
    ensures Assemble(spec, q) == Assemble(spec, p)
  {
    assert Repeat('0', 1) == ['0'] && Repeat('0', 0) == [];
    assert Payload(spec, p) == ['0'] == Payload(spec, q);
    assert PadChar(spec, p) == PadChar(spec, q) && FieldPad(spec, p) == FieldPad(spec, q);
  }

  // ---------- Whole format strings ----------

  /** What a specifier prints, and the argument after those it takes. */
  function Converted(spec: Spec, args: Args, k: nat): (seq<char>, nat)
  {
    var (s, l) := TakeStars(spec, args, k);
    var (p, m) := Convert(s, args, l);
    (Assemble(s, p), m)
  }

  /** What a format string prints from index `i` on, with arguments from the k-th on. */
  function Render(fmt: seq<char>, i: nat, args: Args, k: nat): seq<char>
    requires i <= |fmt|
    decreases |fmt| - i
  {
    if i == |fmt| then []
    else if fmt[i] != '%' || ParseSpec(fmt, i).None? then [fmt[i]] + Render(fmt, i + 1, args, k)
    else
      var (spec, next) := ParseSpec(fmt, i).value;
      var (text, m) := Converted(spec, args, k);
      text + Render(fmt, next, args, m)
  }
}
