/** The text of a format specifier: what the parser accepts, and what each part of it means. */
module FormatGrammar {
  import opened Numerals
  import opened Strtol
  import opened FormatSpec

  datatype WidthText = NoWidth | WidthDigits(digits: seq<char>) | WidthStar

  datatype PrecText = NoPrec | PrecDigits(digits: seq<char>) | PrecNegative(digits: seq<char>) | PrecStar

  datatype SpecText = SpecText(flags: seq<char>, width: WidthText, prec: PrecText, length: LengthModifier, conv: char)

  ghost predicate AllFlags(s: seq<char>)
  {
    forall k :: 0 <= k < |s| ==> IsFlag(s[k])
  }

  ghost predicate AllDecimal(s: seq<char>)
  {
    forall k :: 0 <= k < |s| ==> IsDecimal(s[k])
  }

  /** A width does not begin with 0, which would be a flag. */
  ghost predicate Proper(x: SpecText)
  {
    && AllFlags(x.flags) && ConversionOf(x.conv).Some?
    && (x.width.WidthDigits? ==> AllDecimal(x.width.digits) && x.width.digits != [] && x.width.digits[0] != '0')
    && (x.prec.PrecDigits? || x.prec.PrecNegative? ==> AllDecimal(x.prec.digits))
  }

  function OfWidth(w: WidthText): seq<char>
  {
    match w
    case NoWidth => []
    case WidthDigits(ds) => ds
    case WidthStar => ['*']
  }

  function OfPrec(p: PrecText): seq<char>
  {
    match p
    case NoPrec => []
    case PrecDigits(ds) => ['.'] + ds
    case PrecNegative(ds) => ['.', '-'] + ds
    case PrecStar => ['.', '*']
  }

  function OfLength(m: LengthModifier): seq<char>
  {
    match m
    case Plain => []
    case Short => ['h']
    case Byte => ['h', 'h']
    case Long => ['l']
    case LongLong => ['l', 'l']
    case IntMax => ['j']
    case SizeT => ['z']
    case PtrDiff => ['t']
  }

  function Text(x: SpecText): seq<char>
  {
    ['%'] + x.flags + OfWidth(x.width) + OfPrec(x.prec) + OfLength(x.length) + [x.conv]
  }

  function WidthOpt(w: WidthText): Opt
  {
    match w
    case NoWidth => NoOpt
    case WidthDigits(_) => Literal
    case WidthStar => Star
  }

  function WidthValue(w: WidthText): int
  {
    if w.WidthDigits? then Value(w.digits, 10) else 0
  }

  /** A negative precision counts as none. */
  function PrecOpt(p: PrecText): Opt
  {
    match p
    case NoPrec => NoOpt
    case PrecDigits(_) => Literal
    case PrecNegative(_) => NoOpt
    case PrecStar => Star
  }

  function PrecValue(p: PrecText): int
  {
    if p.PrecDigits? || p.PrecNegative? then Value(p.digits, 10) else 0
  }

  /** Which characters are flags and digits. */
  lemma CharactersAre(c: char)
    ensures IsFlag(c) <==> c in "-0+ #"
    ensures IsDecimal(c) <==> c in "0123456789"
  {
  }

  /** The letters of a specifier: the percent sign, flags, width, precision, length modifier and conversion, in this order. */
  lemma LettersAre(x: SpecText, width: seq<char>, prec: seq<char>, length: seq<char>)
    requires width == match x.width case NoWidth => "" case WidthDigits(ds) => ds case WidthStar => "*"
    requires prec == match x.prec case NoPrec => "" case PrecDigits(ds) => "." + ds case PrecNegative(ds) => ".-" + ds case PrecStar => ".*"
    requires length == match x.length
      case Plain => "" case Short => "h" case Byte => "hh" case Long => "l" case LongLong => "ll" case IntMax => "j" case SizeT => "z" case PtrDiff => "t"
    ensures Text(x) == "%" + x.flags + width + prec + length + [x.conv]
  {
  }

  /** Width and precision are read in decimal; what is not there counts as 0. */
  lemma NumbersAre(x: SpecText)
    ensures WidthValue(x.width) == if x.width.WidthDigits? then Value(x.width.digits, 10) else 0
    ensures PrecValue(x.prec) == if x.prec.PrecDigits? || x.prec.PrecNegative? then Value(x.prec.digits, 10) else 0
  {
  }

  // ---------- Reading each part ----------

  lemma {:induction false} FlagsRead(fmt: seq<char>, i: nat, j: nat, f: Flags)
    requires i <= j <= |fmt| && (forall k :: i <= k < j ==> IsFlag(fmt[k])) && !IsFlag(At(fmt, j))
    ensures ParseFlags(fmt, i, f).1 == j
    decreases j - i
  {
    if i < j {
      FlagsRead(fmt, i + 1, j, AddFlag(f, fmt[i]));
    }
  }

  lemma FlagsMean(fmt: seq<char>, i: nat, j: nat)
    requires i <= j <= |fmt| && AllFlags(fmt[i..j]) && !IsFlag(At(fmt, j))
    ensures ParseFlags(fmt, i, NO_FLAGS) == (FlagsOf(fmt[i..j]), j)
  {
    assert forall k :: i <= k < j ==> fmt[k] == fmt[i..j][k - i];
    FlagsRead(fmt, i, j, NO_FLAGS);
    FlagOrderIsFree(fmt, i, i);
    assert fmt[i..i] == [] && FlagsOf([]) == NO_FLAGS;
  }

  lemma {:induction false} DecimalReads(fmt: seq<char>, s: nat, i: nat, j: nat, acc: nat)
    requires s <= i <= j <= |fmt| && AllDecimal(fmt[i..j]) && !IsDecimal(At(fmt, j)) && acc == Value(fmt[s..i], 10)
    ensures ParseNumber(fmt, i, acc) == (Value(fmt[s..j], 10), j)
    decreases j - i
  {
    if i < j {
      assert IsDecimal(fmt[i..j][0]);
      NextDigit(fmt, s, i, acc);
      assert fmt[i + 1..j] == fmt[i..j][1..];
      DecimalReads(fmt, s, i + 1, j, acc * 10 + (fmt[i] as int - 48));
    }
  }

  lemma NextDigit(fmt: seq<char>, s: nat, i: nat, acc: nat)
    requires s <= i < |fmt| && IsDecimal(fmt[i]) && acc == Value(fmt[s..i], 10)
    ensures acc * 10 + (fmt[i] as int - 48) == Value(fmt[s..i + 1], 10)
  {
    assert fmt[s..i + 1] == fmt[s..i] + [fmt[i]];
    ValuePush(fmt[s..i], fmt[i], 10);
  }

  lemma NumberMeans(fmt: seq<char>, i: nat, ds: seq<char>)
    requires i + |ds| <= |fmt| && fmt[i..i + |ds|] == ds && AllDecimal(ds) && !IsDecimal(At(fmt, i + |ds|))
    ensures ParseNumber(fmt, i, 0) == (Value(ds, 10), i + |ds|)
  {
    assert fmt[i..i] == [];
    DecimalReads(fmt, i, i, i + |ds|, 0);
  }

  /** What may follow a width: nothing that would be read as part of it. */
  predicate EndsNumber(c: char)
  {
    !IsDecimal(c) && c != '*' && c != '-'
  }

  lemma WidthMeans(fmt: seq<char>, i: nat, w: WidthText)
    requires i + |OfWidth(w)| <= |fmt| && fmt[i..i + |OfWidth(w)|] == OfWidth(w) && EndsNumber(At(fmt, i + |OfWidth(w)|))
    requires w.WidthDigits? ==> AllDecimal(w.digits) && w.digits != []
    ensures ParseWidth(fmt, i) == (WidthOpt(w), WidthValue(w), i + |OfWidth(w)|)
  {
    var t := OfWidth(w);
    assert t != [] ==> fmt[i] == t[0];
    if !w.WidthStar? {
      NumberMeans(fmt, i, t);
    }
  }

  lemma PrecMeans(fmt: seq<char>, i: nat, p: PrecText)
    requires i + |OfPrec(p)| <= |fmt| && fmt[i..i + |OfPrec(p)|] == OfPrec(p) && EndsNumber(At(fmt, i + |OfPrec(p)|))
    requires p.PrecDigits? || p.PrecNegative? ==> AllDecimal(p.digits)
    requires p.NoPrec? ==> At(fmt, i) != '.'
    ensures ParsePrecision(fmt, i) == (PrecOpt(p), PrecValue(p), i + |OfPrec(p)|)
  {
    var t := OfPrec(p);
    assert |t| > 0 ==> fmt[i] == t[0];
    assert |t| > 1 ==> fmt[i + 1] == t[1];
    match p
    case NoPrec =>
    case PrecStar =>
    case PrecDigits(ds) =>
      assert fmt[i + 1..i + 1 + |ds|] == t[1..];
      NumberMeans(fmt, i + 1, ds);
      assert |ds| > 0 ==> t[1] == ds[0];
    case PrecNegative(ds) =>
      assert fmt[i + 2..i + 2 + |ds|] == t[2..];
      NumberMeans(fmt, i + 2, ds);
  }

  lemma LengthMeans(fmt: seq<char>, i: nat, m: LengthModifier)
    requires i + |OfLength(m)| < |fmt| && fmt[i..i + |OfLength(m)|] == OfLength(m)
    requires ConversionOf(fmt[i + |OfLength(m)|]).Some?
    ensures ParseLength(fmt, i) == (m, i + |OfLength(m)|)
  {
    var t := OfLength(m);
    assert |t| > 0 ==> fmt[i] == t[0];
    assert |t| > 1 ==> fmt[i + 1] == t[1];
  }

  // ---------- The whole specifier ----------

  /** Length modifier and conversion. */
  function FromLength(x: SpecText): seq<char>
  {
    OfLength(x.length) + [x.conv]
  }

  function FromPrec(x: SpecText): seq<char>
  {
    OfPrec(x.prec) + FromLength(x)
  }

  function FromWidth(x: SpecText): seq<char>
  {
    OfWidth(x.width) + FromPrec(x)
  }

  lemma TextParts(x: SpecText)
    ensures Text(x) == ['%'] + x.flags + FromWidth(x)
  {
  }

  /** Each part is followed by something that is not read as part of it. */
  lemma FirstChars(x: SpecText)
    requires Proper(x)
    ensures EndsNumber(FromLength(x)[0]) && FromLength(x)[0] != '.'
    ensures EndsNumber(FromPrec(x)[0]) && (x.prec.NoPrec? ==> FromPrec(x)[0] != '.')
    ensures !IsFlag(FromWidth(x)[0])
  {
    assert FromLength(x)[0] == if OfLength(x.length) == [] then x.conv else OfLength(x.length)[0];
    assert FromPrec(x)[0] == if OfPrec(x.prec) == [] then FromLength(x)[0] else OfPrec(x.prec)[0];
    assert FromWidth(x)[0] == if OfWidth(x.width) == [] then FromPrec(x)[0] else OfWidth(x.width)[0];
  }

  lemma SplitAt(fmt: seq<char>, i: nat, a: seq<char>, b: seq<char>)
    requires i + |a| + |b| <= |fmt| && fmt[i..i + |a| + |b|] == a + b && b != []
    ensures fmt[i..i + |a|] == a && fmt[i + |a|..i + |a| + |b|] == b && At(fmt, i + |a|) == b[0]
  {
    var t := fmt[i..i + |a| + |b|];
    assert fmt[i..i + |a|] == t[..|a|];
    assert fmt[i + |a|..i + |a| + |b|] == t[|a|..];
    assert fmt[i + |a|] == t[|a|];
  }

  function SpecOf(x: SpecText): Spec
    requires Proper(x)
  {
    Numbers(x);
    Finish(FlagsOf(x.flags), WidthOpt(x.width), WidthValue(x.width), PrecOpt(x.prec), PrecValue(x.prec), x.length, x.conv)
  }

  lemma Numbers(x: SpecText)
    requires Proper(x)
    ensures WidthValue(x.width) >= 0 && PrecValue(x.prec) >= 0
  {
    if x.width.WidthDigits? {
      DecimalIsNatural(x.width.digits);
    }
    if x.prec.PrecDigits? || x.prec.PrecNegative? {
      DecimalIsNatural(x.prec.digits);
    }
  }

  lemma DecimalIsNatural(ds: seq<char>)
    requires AllDecimal(ds)
    ensures Value(ds, 10) >= 0
  {
    ValueIsNatural(ds, 10);
  }

  function WidthStart(x: SpecText): nat
  {
    1 + |x.flags|
  }

  lemma FlagsParse(fmt: seq<char>, i: nat, x: SpecText)
    requires Proper(x) && i + |Text(x)| <= |fmt| && fmt[i..i + |Text(x)|] == Text(x)
    ensures ParseFlags(fmt, i + 1, NO_FLAGS) == (FlagsOf(x.flags), i + WidthStart(x))
    ensures fmt[i + WidthStart(x)..i + |Text(x)|] == FromWidth(x)
  {
    TextParts(x);
    FirstChars(x);
    var a := i + 1 + |x.flags|;
    SplitAt(fmt, i, ['%'] + x.flags, FromWidth(x));
    assert fmt[i + 1..a] == fmt[i..a][1..] == x.flags;
    FlagsMean(fmt, i + 1, a);
  }

  lemma WidthParses(fmt: seq<char>, a: nat, x: SpecText)
    requires Proper(x) && a + |FromWidth(x)| <= |fmt| && fmt[a..a + |FromWidth(x)|] == FromWidth(x)
    ensures ParseWidth(fmt, a) == (WidthOpt(x.width), WidthValue(x.width), a + |OfWidth(x.width)|)
    ensures fmt[a + |OfWidth(x.width)|..a + |FromWidth(x)|] == FromPrec(x)
  {
    FirstChars(x);
    SplitAt(fmt, a, OfWidth(x.width), FromPrec(x));
    WidthMeans(fmt, a, x.width);
  }

  lemma PrecParses(fmt: seq<char>, b: nat, x: SpecText)
    requires Proper(x) && b + |FromPrec(x)| <= |fmt| && fmt[b..b + |FromPrec(x)|] == FromPrec(x)
    ensures ParsePrecision(fmt, b) == (PrecOpt(x.prec), PrecValue(x.prec), b + |OfPrec(x.prec)|)
    ensures fmt[b + |OfPrec(x.prec)|..b + |FromPrec(x)|] == FromLength(x)
  {
    FirstChars(x);
    SplitAt(fmt, b, OfPrec(x.prec), FromLength(x));
    assert x.prec.NoPrec? ==> FromPrec(x) == FromLength(x);
    PrecMeans(fmt, b, x.prec);
  }

  lemma LengthParses(fmt: seq<char>, c: nat, x: SpecText)
    requires Proper(x) && c + |FromLength(x)| <= |fmt| && fmt[c..c + |FromLength(x)|] == FromLength(x)
    ensures ParseLength(fmt, c) == (x.length, c + |OfLength(x.length)|) && At(fmt, c + |OfLength(x.length)|) == x.conv
  {
    SplitAt(fmt, c, OfLength(x.length), [x.conv]);
    LengthMeans(fmt, c, x.length);
  }

  lemma Lengths(x: SpecText)
    ensures |FromWidth(x)| == |OfWidth(x.width)| + |FromPrec(x)| && |FromPrec(x)| == |OfPrec(x.prec)| + |FromLength(x)|
    ensures |FromLength(x)| == |OfLength(x.length)| + 1 && |Text(x)| == WidthStart(x) + |FromWidth(x)|
  {
  }

  /** The parts, read one behind the other, make the specifier. */
  lemma Assembled(fmt: seq<char>, i: nat, f: Flags, a: nat, w: (Opt, nat, nat), p: (Opt, nat, nat), m: LengthModifier, d: nat)
    requires i < |fmt| && a <= |fmt| && w.2 <= |fmt| && p.2 <= |fmt| && d <= |fmt|
    requires ParseFlags(fmt, i + 1, NO_FLAGS) == (f, a) && ParseWidth(fmt, a) == w && ParsePrecision(fmt, w.2) == p && ParseLength(fmt, p.2) == (m, d)
    requires ConversionOf(At(fmt, d)).Some?
    ensures ParseSpec(fmt, i) == Some((Finish(f, w.0, w.1, p.0, p.1, m, At(fmt, d)), d + 1))
  {
  }

  ghost predicate Spells(fmt: seq<char>, i: nat, x: SpecText)
  {
    Proper(x) && i + |Text(x)| <= |fmt| && fmt[i..i + |Text(x)|] == Text(x)
  }

  lemma TailParses(fmt: seq<char>, a: nat, x: SpecText)
    requires Proper(x) && a + |FromWidth(x)| <= |fmt| && fmt[a..a + |FromWidth(x)|] == FromWidth(x)
    ensures var b := a + |OfWidth(x.width)|;
      var c := b + |OfPrec(x.prec)|;
      var d := c + |OfLength(x.length)|;
      && ParseWidth(fmt, a) == (WidthOpt(x.width), WidthValue(x.width), b)
      && ParsePrecision(fmt, b) == (PrecOpt(x.prec), PrecValue(x.prec), c)
      && ParseLength(fmt, c) == (x.length, d) && At(fmt, d) == x.conv
  {
    WidthParses(fmt, a, x);
    PrecParses(fmt, a + |OfWidth(x.width)|, x);
    LengthParses(fmt, a + |OfWidth(x.width)| + |OfPrec(x.prec)|, x);
  }

  /** Parsing the text of a specifier gives the specifier it spells, and ends behind it. */
  lemma TextParses(fmt: seq<char>, i: nat, x: SpecText)
    requires Spells(fmt, i, x)
    ensures ParseSpec(fmt, i) == Some((SpecOf(x), i + |Text(x)|))
  {
    Lengths(x);
    Numbers(x);
    FlagsParse(fmt, i, x);
    var a := i + WidthStart(x);
    TailParses(fmt, a, x);
    var b := a + |OfWidth(x.width)|;
    var c := b + |OfPrec(x.prec)|;
    Assembled(fmt, i, FlagsOf(x.flags), a, (WidthOpt(x.width), WidthValue(x.width), b), (PrecOpt(x.prec), PrecValue(x.prec), c), x.length, c + |OfLength(x.length)|);
  }

  // ---------- What is parsed was spelled ----------

  lemma {:induction false} FlagsRun(fmt: seq<char>, i: nat, f: Flags)
    requires i <= |fmt|
    ensures var j := ParseFlags(fmt, i, f).1; AllFlags(fmt[i..j]) && !IsFlag(At(fmt, j))
    decreases |fmt| - i
  {
    if IsFlag(At(fmt, i)) {
      FlagsRun(fmt, i + 1, AddFlag(f, fmt[i]));
      var j := ParseFlags(fmt, i + 1, AddFlag(f, fmt[i])).1;
      assert fmt[i..j] == [fmt[i]] + fmt[i + 1..j];
    }
  }

  lemma {:induction false} NumberRun(fmt: seq<char>, i: nat, acc: nat)
    requires i <= |fmt|
    ensures AllDecimal(fmt[i..ParseNumber(fmt, i, acc).1])
    decreases |fmt| - i
  {
    if IsDecimal(At(fmt, i)) {
      var acc' := acc * 10 + (fmt[i] as int - 48);
      NumberRun(fmt, i + 1, acc');
      var j := ParseNumber(fmt, i + 1, acc').1;
      assert fmt[i..j] == [fmt[i]] + fmt[i + 1..j];
    }
  }

  lemma WidthSpelled(fmt: seq<char>, a: nat) returns (w: WidthText)
    requires a <= |fmt| && !IsFlag(At(fmt, a))
    ensures w.WidthDigits? ==> AllDecimal(w.digits) && w.digits != [] && w.digits[0] != '0'
    ensures fmt[a..ParseWidth(fmt, a).2] == OfWidth(w)
  {
    var b := ParseWidth(fmt, a).2;
    if At(fmt, a) == '*' {
      w := WidthStar;
    } else if IsDecimal(At(fmt, a)) {
      NumberRun(fmt, a, 0);
      w := WidthDigits(fmt[a..b]);
    } else {
      w := NoWidth;
    }
  }

  lemma FirstAndRest(fmt: seq<char>, b: nat, c: nat)
    requires b < c <= |fmt|
    ensures fmt[b..c] == [fmt[b]] + fmt[b + 1..c]
  {
  }

  lemma PrecSpelled(fmt: seq<char>, b: nat) returns (p: PrecText)
    requires b <= |fmt|
    ensures p.PrecDigits? || p.PrecNegative? ==> AllDecimal(p.digits)
    ensures fmt[b..ParsePrecision(fmt, b).2] == OfPrec(p)
  {
    var c := ParsePrecision(fmt, b).2;
    if At(fmt, b) != '.' {
      p := NoPrec;
    } else if At(fmt, b + 1) == '*' {
      FirstAndRest(fmt, b, c);
      FirstAndRest(fmt, b + 1, c);
      p := PrecStar;
    } else if At(fmt, b + 1) == '-' {
      NumberRun(fmt, b + 2, 0);
      FirstAndRest(fmt, b, c);
      FirstAndRest(fmt, b + 1, c);
      p := PrecNegative(fmt[b + 2..c]);
    } else {
      NumberRun(fmt, b + 1, 0);
      FirstAndRest(fmt, b, c);
      p := PrecDigits(fmt[b + 1..c]);
    }
  }

  lemma LengthSpelled(fmt: seq<char>, c: nat)
    requires c <= |fmt|
    ensures var r := ParseLength(fmt, c); fmt[c..r.1] == OfLength(r.0)
  {
  }

  lemma PartsJoin(fmt: seq<char>, i: nat, a: nat, b: nat, c: nat, d: nat, x: SpecText)
    requires i < a <= b <= c <= d < |fmt| && fmt[i] == '%' && fmt[d] == x.conv && fmt[i + 1..a] == x.flags
    requires fmt[a..b] == OfWidth(x.width) && fmt[b..c] == OfPrec(x.prec) && fmt[c..d] == OfLength(x.length)
    ensures fmt[i..d + 1] == Text(x)
  {
    assert fmt[i..d + 1] == [fmt[i]] + fmt[i + 1..a] + fmt[a..b] + fmt[b..c] + fmt[c..d] + [fmt[d]];
  }

  /** Every specifier the parser accepts is the text of one, and it means what that text spells. */
  lemma ParsedIsSpelled(fmt: seq<char>, i: nat) returns (x: SpecText)
    requires i < |fmt| && fmt[i] == '%' && ParseSpec(fmt, i).Some?
    ensures Spells(fmt, i, x) && ParseSpec(fmt, i).value == (SpecOf(x), i + |Text(x)|)
  {
    var a := ParseFlags(fmt, i + 1, NO_FLAGS).1;
    FlagsRun(fmt, i + 1, NO_FLAGS);
    var b := ParseWidth(fmt, a).2;
    var w := WidthSpelled(fmt, a);
    var c := ParsePrecision(fmt, b).2;
    var p := PrecSpelled(fmt, b);
    var (m, d) := ParseLength(fmt, c);
    LengthSpelled(fmt, c);
    x := SpecText(fmt[i + 1..a], w, p, m, fmt[d]);
    PartsJoin(fmt, i, a, b, c, d, x);
    TextParses(fmt, i, x);
  }

  /** The parser accepts at a '%' exactly when a specifier is spelled there. */
  lemma AcceptsIffSpelled(fmt: seq<char>, i: nat)
    requires i < |fmt| && fmt[i] == '%'
    ensures ParseSpec(fmt, i).Some? <==> exists x :: Spells(fmt, i, x)
  {
    if ParseSpec(fmt, i).Some? {
      var x := ParsedIsSpelled(fmt, i);
    }
    if x :| Spells(fmt, i, x) {
      TextParses(fmt, i, x);
    }
  }
}
