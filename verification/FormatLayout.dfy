/** What flags, width, precision and conversion do to the printed text, told from the format string alone. */
module FormatLayout {
  import opened Sequences
  import opened Numerals
  import opened FormatSpec
  import opened FormatGrammar
  import opened FormatText
  import opened FormatRoundTrip

  /** Width and precision, if any, stand in the format string. */
  ghost predicate Written(x: SpecText)
  {
    Proper(x) && !x.width.WidthStar? && !x.prec.PrecStar?
  }

  lemma RenderPiece(x: SpecText, args: Args)
    requires Written(x)
    ensures Render(Text(x), 0, args, 0) == Assemble(SpecOf(x), Convert(SpecOf(x), args, 0).0)
  {
    RenderOne(x, args);
  }

  /** Digits are decimal digits and the first letters of the alphabet, in the case asked for. */
  lemma {:induction false} DigitsAreThese(n: nat, base: nat, lower: bool)
    requires 2 <= base <= 16
    ensures forall c :: c in Digits(n, base, lower) ==> '0' <= c <= '9' || (lower && 'a' <= c <= 'f') || (!lower && 'A' <= c <= 'F')
    decreases n
  {
    if n >= base {
      QuotientSmaller(n, base);
      DigitsAreThese(n / base, base, lower);
    }
  }

  /** There is no digit 0 in front of other digits. */
  lemma {:induction false} NoLeadingZero(n: nat, base: nat, lower: bool)
    requires 2 <= base <= 16 && n > 0
    ensures Digits(n, base, lower)[0] != '0'
    decreases n
  {
    if n >= base {
      QuotientSmaller(n, base);
      NoLeadingZero(n / base, base, lower);
    }
  }

  /** How an integer conversion uses a field: padded with blanks behind, zeros inside or blanks in front. */
  function InField(x: SpecText, lead: seq<char>, number: seq<char>): seq<char>
  {
    var pad := WidthValue(x.width) - |lead| - |number|;
    if '-' in x.flags then lead + number + Repeat(' ', pad)
    else if '0' in x.flags && !x.prec.PrecDigits? then lead + Repeat('0', pad) + number
    else Repeat(' ', pad) + lead + number
  }

  lemma AssembledInField(x: SpecText, p: Piece)
    requires Written(x) && IsInteger(ConversionOf(x.conv).value) && (p.sign == '\0' || p.prefix == '\0')
    ensures Assemble(SpecOf(x), p) == InField(x, Sign(p) + Prefix(p), Repeat('0', p.prec - |p.body|) + p.body)
  {
    var spec, lead, number := SpecOf(x), Sign(p) + Prefix(p), Repeat('0', p.prec - |p.body|) + p.body;
    SignParts(p);
    Numbers(x);
    assert Payload(spec, p) == number;
    var pad := WidthValue(x.width) - |lead| - |number|;
    assert x.width.NoWidth? ==> Repeat(' ', pad) == [] && Repeat('0', pad) == [];
    assert FieldPad(spec, p) == Max(0, pad);
    assert Repeat(' ', pad) == Repeat(' ', FieldPad(spec, p)) && Repeat('0', pad) == Repeat('0', FieldPad(spec, p));
    assert lead + number + [] == lead + number && [] + lead + number == lead + number && lead + [] + number == lead + number;
    Associative(Repeat(' ', FieldPad(spec, p)), Prefix(p), Sign(p));
    Associative(Repeat(' ', FieldPad(spec, p)), Sign(p), Prefix(p));
  }

  function SignText(v: int, flags: seq<char>): seq<char>
  {
    if v < 0 then "-" else if '+' in flags then "+" else if ' ' in flags then " " else ""
  }

  lemma SignedPiece(x: SpecText, v: int)
    requires Written(x) && ConversionOf(x.conv) == Some(Signed)
    ensures var p := ConvertSigned(SpecOf(x), v);
      && p.prefix == '\0' && Sign(p) + Prefix(p) == SignText(v, x.flags) && p.prec == PrecValue(x.prec)
      && p.body == if v == 0 && x.prec.PrecDigits? && PrecValue(x.prec) == 0 then "" else Digits(if v < 0 then -v else v, 10, true)
  {
    var p := ConvertSigned(SpecOf(x), v);
    assert Sign(p) + Prefix(p) == Sign(p);
  }

  lemma RenderSigned(x: SpecText, args: Args, v: int)
    requires Written(x) && ConversionOf(x.conv) == Some(Signed) && v == AsSigned(args.num(0), x.length)
    ensures Render(Text(x), 0, args, 0) == Assemble(SpecOf(x), ConvertSigned(SpecOf(x), v))
  {
    RenderPiece(x, args);
  }

  lemma SignedInField(x: SpecText, v: int, digits: seq<char>)
    requires Written(x) && ConversionOf(x.conv) == Some(Signed)
    requires digits == if v == 0 && x.prec.PrecDigits? && PrecValue(x.prec) == 0 then "" else Digits(if v < 0 then -v else v, 10, true)
    ensures Assemble(SpecOf(x), ConvertSigned(SpecOf(x), v)) == InField(x, SignText(v, x.flags), Repeat('0', PrecValue(x.prec) - |digits|) + digits)
  {
    SignedPiece(x, v);
    AssembledInField(x, ConvertSigned(SpecOf(x), v));
  }

  /**
    A signed conversion prints '-', or what '+' or ' ' asks for, and the digits of the number, as
    many as the precision asks for.  In a wider field '-' puts blanks behind, '0' without a
    precision zeros behind the sign, and anything else blanks in front.
   */
  lemma SignedLayout(x: SpecText, args: Args, v: int, sign: seq<char>, digits: seq<char>, number: seq<char>, pad: int)
    requires Written(x) && x.conv in {'d', 'i'} && v == AsSigned(args.num(0), x.length)
    requires sign == if v < 0 then "-" else if '+' in x.flags then "+" else if ' ' in x.flags then " " else ""
    requires digits == if v == 0 && x.prec.PrecDigits? && PrecValue(x.prec) == 0 then "" else Digits(if v < 0 then -v else v, 10, true)
    requires number == Repeat('0', PrecValue(x.prec) - |digits|) + digits && pad == WidthValue(x.width) - |sign| - |number|
    ensures Render(Text(x), 0, args, 0) ==
      if '-' in x.flags then sign + number + Repeat(' ', pad)
      else if '0' in x.flags && !x.prec.PrecDigits? then sign + Repeat('0', pad) + number
      else Repeat(' ', pad) + sign + number
  {
    RenderSigned(x, args, v);
    SignedInField(x, v, digits);
  }

  function BaseText(conv: char): (b: nat)
    ensures 2 <= b <= 16
  {
    if conv == 'u' then 10 else if conv == 'o' then 8 else 16
  }

  function PrefixText(u: nat, x: SpecText): seq<char>
  {
    if u != 0 && '#' in x.flags && x.conv in {'x', 'X'} then ['0', x.conv] else ""
  }

  predicate Silent(u: nat, x: SpecText)
  {
    u == 0 && x.prec.PrecDigits? && PrecValue(x.prec) == 0
  }

  lemma UnsignedPiece(x: SpecText, u: nat, digits: seq<char>)
    requires Written(x) && x.conv in {'u', 'o', 'x', 'X'} && digits == if Silent(u, x) then "" else Digits(u, BaseText(x.conv), x.conv != 'X')
    ensures var p := ConvertUnsigned(SpecOf(x), u);
      && p.sign == '\0' && Sign(p) + Prefix(p) == PrefixText(u, x)
      && p.prec == (if Silent(u, x) && x.conv == 'o' && '#' in x.flags then 1 else PrecValue(x.prec))
      && p.body == if x.conv == 'o' && '#' in x.flags && u != 0 then "0" + digits else digits
  {
    var p := ConvertUnsigned(SpecOf(x), u);
    assert Sign(p) + Prefix(p) == Prefix(p);
  }

  lemma ConvertsUnsigned(spec: Spec, args: Args, u: nat)
    requires IsInteger(spec.conv) && spec.conv != Signed && u == AsUnsigned(args.num(0), spec.length)
    ensures Convert(spec, args, 0).0 == ConvertUnsigned(spec, u)
  {
  }

  lemma UnsignedConv(x: SpecText)
    requires Written(x) && x.conv in {'u', 'o', 'x', 'X'}
    ensures IsInteger(SpecOf(x).conv) && SpecOf(x).conv != Signed && SpecOf(x).length == x.length
  {
  }

  lemma RenderUnsigned(x: SpecText, args: Args, u: nat)
    requires Written(x) && x.conv in {'u', 'o', 'x', 'X'} && u == AsUnsigned(args.num(0), x.length)
    ensures Render(Text(x), 0, args, 0) == Assemble(SpecOf(x), ConvertUnsigned(SpecOf(x), u))
  {
    RenderPiece(x, args);
    UnsignedConv(x);
    ConvertsUnsigned(SpecOf(x), args, u);
  }

  /** The text of an unsigned conversion, from the parts of its piece. */
  lemma UnsignedInField(x: SpecText, u: nat, digits: seq<char>, prec: int, body: seq<char>)
    requires Written(x) && x.conv in {'u', 'o', 'x', 'X'}
    requires digits == if Silent(u, x) then "" else Digits(u, BaseText(x.conv), x.conv != 'X')
    requires prec == if Silent(u, x) && x.conv == 'o' && '#' in x.flags then 1 else PrecValue(x.prec)
    requires body == if x.conv == 'o' && '#' in x.flags && u != 0 then "0" + digits else digits
    ensures Assemble(SpecOf(x), ConvertUnsigned(SpecOf(x), u)) == InField(x, PrefixText(u, x), Repeat('0', prec - |body|) + body)
  {
    UnsignedPiece(x, u, digits);
    UnsignedConv(x);
    AssembledInField(x, ConvertUnsigned(SpecOf(x), u));
  }

  lemma OctalSilent(x: SpecText, u: nat)
    requires Written(x) && x.conv == 'o' && '#' in x.flags && Silent(u, x)
    ensures Assemble(SpecOf(x), ConvertUnsigned(SpecOf(x), u)) == InField(x, "", Repeat('0', 1) + "")
  {
    UnsignedInField(x, u, "", 1, "");
  }

  lemma OctalSpoken(x: SpecText, u: nat, ds: seq<char>, digits: seq<char>)
    requires Written(x) && x.conv == 'o' && '#' in x.flags && !Silent(u, x)
    requires ds == Digits(u, BaseText(x.conv), x.conv != 'X') && digits == (if u != 0 then "0" + ds else ds)
    ensures Assemble(SpecOf(x), ConvertUnsigned(SpecOf(x), u)) == InField(x, PrefixText(u, x), Repeat('0', PrecValue(x.prec) - |digits|) + digits)
  {
    UnsignedInField(x, u, ds, PrecValue(x.prec), digits);
  }

  lemma NoPrefix(x: SpecText, u: nat)
    requires x.conv == 'o'
    ensures PrefixText(u, x) == "" && BaseText(x.conv) == 8
  {
  }

  lemma OctalInField(x: SpecText, u: nat, digits: seq<char>, number: seq<char>)
    requires Written(x) && x.conv == 'o' && '#' in x.flags && digits == if u == 0 then "0" else "0" + Digits(u, 8, true)
    requires number == Repeat('0', PrecValue(x.prec) - |digits|) + digits
    ensures Assemble(SpecOf(x), ConvertUnsigned(SpecOf(x), u)) == InField(x, "", number)
  {
    if Silent(u, x) {
      OctalSilent(x, u);
      OnlyZero(number, digits, PrecValue(x.prec));
    } else {
      ZeroIsZero();
      NoPrefix(x, u);
      OctalSpoken(x, u, Digits(u, 8, true), digits);
    }
  }

  lemma OnlyZero(number: seq<char>, digits: seq<char>, prec: int)
    requires digits == "0" && prec == 0 && number == Repeat('0', prec - |digits|) + digits
    ensures number == Repeat('0', 1) + ""
  {
    assert Repeat('0', 1) == Repeat('0', 0) + ['0'];
  }

  lemma ZeroIsZero()
    ensures Digits(0, 8, true) == "0"
  {
  }

  /**
    An unsigned conversion prints the digits in its base, capital for 'X', as many as the precision
    asks for; '#' puts "0x" or "0X" in front of a hexadecimal number that is not 0.
   */
  lemma UnsignedLayout(x: SpecText, args: Args, u: nat, lead: seq<char>, digits: seq<char>, number: seq<char>, pad: int)
    requires Written(x) && x.conv in {'u', 'o', 'x', 'X'} && !(x.conv == 'o' && '#' in x.flags) && u == AsUnsigned(args.num(0), x.length)
    requires lead == if u != 0 && '#' in x.flags && x.conv in {'x', 'X'} then ['0', x.conv] else ""
    requires digits == if u == 0 && x.prec.PrecDigits? && PrecValue(x.prec) == 0 then "" else
               Digits(u, if x.conv == 'u' then 10 else if x.conv == 'o' then 8 else 16, x.conv != 'X')
    requires number == Repeat('0', PrecValue(x.prec) - |digits|) + digits && pad == WidthValue(x.width) - |lead| - |number|
    ensures Render(Text(x), 0, args, 0) ==
      if '-' in x.flags then lead + number + Repeat(' ', pad)
      else if '0' in x.flags && !x.prec.PrecDigits? then lead + Repeat('0', pad) + number
      else Repeat(' ', pad) + lead + number
  {
    RenderUnsigned(x, args, u);
    UnsignedNumber(x, u, lead, digits, number);
    FieldText(x, lead, number, pad);
  }

  lemma UnsignedNumber(x: SpecText, u: nat, lead: seq<char>, digits: seq<char>, number: seq<char>)
    requires Written(x) && x.conv in {'u', 'o', 'x', 'X'} && !(x.conv == 'o' && '#' in x.flags) && lead == PrefixText(u, x)
    requires digits == if Silent(u, x) then "" else Digits(u, BaseText(x.conv), x.conv != 'X')
    requires number == Repeat('0', PrecValue(x.prec) - |digits|) + digits
    ensures Assemble(SpecOf(x), ConvertUnsigned(SpecOf(x), u)) == InField(x, lead, number)
  {
    UnsignedInField(x, u, digits, PrecValue(x.prec), digits);
  }

  lemma FieldText(x: SpecText, lead: seq<char>, number: seq<char>, pad: int)
    requires pad == WidthValue(x.width) - |lead| - |number|
    ensures InField(x, lead, number) ==
      if '-' in x.flags then lead + number + Repeat(' ', pad)
      else if '0' in x.flags && !x.prec.PrecDigits? then lead + Repeat('0', pad) + number
      else Repeat(' ', pad) + lead + number
  {
  }

  lemma BareFieldText(x: SpecText, number: seq<char>, pad: int)
    requires pad == WidthValue(x.width) - |number|
    ensures InField(x, "", number) ==
      if '-' in x.flags then number + Repeat(' ', pad)
      else if '0' in x.flags && !x.prec.PrecDigits? then Repeat('0', pad) + number
      else Repeat(' ', pad) + number
  {
    assert "" + number == number && Repeat(' ', pad) + "" == Repeat(' ', pad) && "" + Repeat('0', pad) == Repeat('0', pad);
  }

  /** '#' makes an octal number begin with 0: one more digit, and a 0 that is never silent. */
  lemma OctalLayout(x: SpecText, args: Args, u: nat, digits: seq<char>, number: seq<char>, pad: int)
    requires Written(x) && x.conv == 'o' && '#' in x.flags && u == AsUnsigned(args.num(0), x.length)
    requires digits == if u == 0 then "0" else "0" + Digits(u, 8, true)
    requires number == Repeat('0', PrecValue(x.prec) - |digits|) + digits && pad == WidthValue(x.width) - |number|
    ensures Render(Text(x), 0, args, 0) ==
      if '-' in x.flags then number + Repeat(' ', pad)
      else if '0' in x.flags && !x.prec.PrecDigits? then Repeat('0', pad) + number
      else Repeat(' ', pad) + number
  {
    RenderUnsigned(x, args, u);
    OctalInField(x, u, digits, number);
    BareFieldText(x, number, pad);
  }

  /** A string conversion prints the string, no more of it than the precision allows, with blanks behind it for '-' and in front of it otherwise. */
  lemma StringLayout(x: SpecText, args: Args)
    requires Written(x) && x.conv == 's'
    ensures var s := args.str(0);
      var t := if x.prec.PrecDigits? && PrecValue(x.prec) < |s| then s[..Max(0, PrecValue(x.prec))] else s;
      var pad := WidthValue(x.width) - |t|;
      Render(Text(x), 0, args, 0) == if '-' in x.flags then t + Repeat(' ', pad) else Repeat(' ', pad) + t
  {
    RenderPiece(x, args);
    StringInField(x, args.str(0));
  }

  lemma StringInField(x: SpecText, s: seq<char>)
    requires Written(x) && x.conv == 's'
    ensures var t := if x.prec.PrecDigits? && PrecValue(x.prec) < |s| then s[..Max(0, PrecValue(x.prec))] else s;
      var pad := WidthValue(x.width) - |t|;
      Assemble(SpecOf(x), ConvertString(SpecOf(x), s)) == if '-' in x.flags then t + Repeat(' ', pad) else Repeat(' ', pad) + t
  {
    Numbers(x);
    var spec := SpecOf(x);
    var p := ConvertString(spec, s);
    assert s[..|s|] == s;
    assert Payload(spec, p) == p.body;
    var pad := WidthValue(x.width) - |p.body|;
    assert x.width.NoWidth? ==> Repeat(' ', pad) == [];
    assert FieldPad(spec, p) == Max(0, pad) && Repeat(' ', pad) == Repeat(' ', FieldPad(spec, p));
    assert Prefix(p) + Sign(p) + p.body == p.body && Repeat(' ', pad) + Prefix(p) + Sign(p) == Repeat(' ', pad);
    assert [] + p.body == p.body && p.body + [] == p.body;
  }

  lemma BareIs(spec: Spec, p: Piece)
    requires spec.widthOpt == NoOpt && p.prec == 0 && p.sign == '\0'
    ensures Assemble(spec, p) == Prefix(p) + p.body
  {
    assert Repeat('0', PrecPad(spec, p)) == [];
    assert Payload(spec, p) == [] + p.body == p.body;
    assert Prefix(p) + Sign(p) == Prefix(p);
  }

  lemma Others(x: SpecText, args: Args)
    requires Written(x) && x.width.NoWidth? && x.prec.NoPrec?
    ensures SpecOf(x).widthOpt == NoOpt
    ensures x.conv in {'c', '%', 'p'} ==> var p := Convert(SpecOf(x), args, 0).0;
      && p.prec == 0 && p.sign == '\0' && p.prefix == (if x.conv == 'p' then 'x' else '\0')
      && p.body == if x.conv == 'c' then [(args.num(0) % 256) as char] else if x.conv == '%' then ['%'] else Digits(args.num(0) % 0x1_0000_0000_0000_0000, 16, true)
  {
  }

  /** Without width and precision: a character, a percent sign, and a pointer as "0x" and its digits. */
  lemma OtherLayouts(x: SpecText, args: Args)
    requires Written(x) && x.width.NoWidth? && x.prec.NoPrec? && x.conv in {'c', '%', 'p'}
    ensures Render(Text(x), 0, args, 0) ==
      if x.conv == 'c' then [(args.num(0) % 256) as char]
      else if x.conv == '%' then ['%']
      else ['0', 'x'] + Digits(args.num(0) % 0x1_0000_0000_0000_0000, 16, true)
  {
    RenderPiece(x, args);
    Others(x, args);
    BareBody(SpecOf(x), Convert(SpecOf(x), args, 0).0);
  }

  lemma BareBody(spec: Spec, p: Piece)
    requires spec.widthOpt == NoOpt && p.prec == 0 && p.sign == '\0'
    ensures Assemble(spec, p) == if p.prefix == '\0' then p.body else ['0', p.prefix] + p.body
  {
    BareIs(spec, p);
    assert [] + p.body == p.body;
  }

  // ---------- Longer format strings ----------

  lemma LiteralStep(fmt: seq<char>, i: nat, args: Args, k: nat)
    requires i < |fmt| && fmt[i] != '%'
    ensures Render(fmt, i, args, k) == [fmt[i]] + Render(fmt, i + 1, args, k)
  {
  }

  /** Text without a percent sign is printed as it is. */
  lemma {:induction false} PlainText(fmt: seq<char>, i: nat, j: nat, args: Args, k: nat)
    requires i <= j <= |fmt| && forall l :: i <= l < j ==> fmt[l] != '%'
    ensures Render(fmt, i, args, k) == fmt[i..j] + Render(fmt, j, args, k)
    decreases j - i
  {
    if i < j {
      PlainText(fmt, i + 1, j, args, k);
      LiteralStep(fmt, i, args, k);
      FirstAndRest(fmt, i, j);
      Associative([fmt[i]], fmt[i + 1..j], Render(fmt, j, args, k));
    } else {
      assert fmt[i..j] == [];
    }
  }

  /** A specifier takes its arguments and the rest of the format string goes on with those behind them. */
  lemma SpecThenRest(fmt: seq<char>, i: nat, args: Args, k: nat, x: SpecText)
    requires Spells(fmt, i, x)
    ensures var (text, m) := Converted(SpecOf(x), args, k);
      Render(fmt, i, args, k) == text + Render(fmt, i + |Text(x)|, args, m)
  {
    TextStarts(x);
    assert fmt[i] == fmt[i..i + |Text(x)|][0];
    TextParses(fmt, i, x);
    RenderStep(fmt, i, args, k, SpecOf(x), i + |Text(x)|);
  }

  lemma TextStarts(x: SpecText)
    ensures Text(x) != [] && Text(x)[0] == '%'
  {
  }

  lemma RenderStep(fmt: seq<char>, i: nat, args: Args, k: nat, spec: Spec, next: nat)
    requires i < next <= |fmt| && fmt[i] == '%' && ParseSpec(fmt, i) == Some((spec, next))
    ensures var (text, m) := Converted(spec, args, k); Render(fmt, i, args, k) == text + Render(fmt, next, args, m)
  {
  }

  /** A width argument counts as written, a negative one as '-' and its absolute value; a negative precision argument counts as none. */
  lemma StarValues(spec: Spec, args: Args, k: nat, w: int, p: int)
    requires w == args.num(k) && p == args.num(if spec.widthOpt == Star then k + 1 else k)
    ensures var s := TakeStars(spec, args, k).0;
      && (spec.widthOpt == Star ==> s.widthOpt == Literal && s.width == (if w < 0 then -w else w) && s.left == (spec.left || w < 0))
      && (spec.widthOpt != Star ==> s.widthOpt == spec.widthOpt && s.width == spec.width && s.left == spec.left)
      && (spec.precOpt == Star ==> s.precOpt == (if p < 0 then NoOpt else Literal) && s.prec == p)
      && (spec.precOpt != Star ==> s.precOpt == spec.precOpt && s.prec == spec.prec)
      && s.zeroPad == spec.zeroPad && s.alt == spec.alt && s.prepend == spec.prepend && s.conv == spec.conv && s.length == spec.length && s.lower == spec.lower
  {
  }

  lemma StarsTake(spec: Spec, args: Args, k: nat)
    ensures var (s, l) := TakeStars(spec, args, k);
      s.conv == spec.conv && l == k + (if spec.widthOpt == Star then 1 else 0) + (if spec.precOpt == Star then 1 else 0)
  {
  }

  lemma ConversionTakes(spec: Spec, args: Args, k: nat)
    ensures Convert(spec, args, k).1 == k + if spec.conv == Percent then 0 else 1
  {
  }

  /** A star takes an argument, but not a precision that the conversion ignores; a percent sign takes none. */
  lemma ArgumentsTaken(x: SpecText, args: Args, k: nat)
    requires Proper(x)
    ensures Converted(SpecOf(x), args, k).1 == k + (if x.width.WidthStar? then 1 else 0)
      + (if x.prec.PrecStar? && x.conv !in {'c', 'p', '%'} then 1 else 0) + (if x.conv == '%' then 0 else 1)
  {
    var (s, l) := TakeStars(SpecOf(x), args, k);
    StarsTake(SpecOf(x), args, k);
    ConversionTakes(s, args, l);
  }

  /** A percent sign that starts no specifier is printed. */
  lemma StrayPercent(fmt: seq<char>, i: nat, args: Args, k: nat)
    requires i < |fmt| && fmt[i] == '%' && forall x :: !Spells(fmt, i, x)
    ensures Render(fmt, i, args, k) == "%" + Render(fmt, i + 1, args, k)
  {
    AcceptsIffSpelled(fmt, i);
  }
}
