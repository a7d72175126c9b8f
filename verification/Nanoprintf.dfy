/** The printf loops: specifier parser, digit conversion, padding and the bounded output buffer. */
module Nanoprintf {
  import opened Sequences
  import opened Numerals
  import opened Strtol
  import opened FormatSpec
  import opened FormatText
  import opened FormatGrammar
  import opened FormatRoundTrip

  // ---------- npf_parse_format_spec ----------

  method ReadNumber(fmt: seq<char>, i: nat) returns (n: nat, cur: nat)
    requires i <= |fmt|
    ensures (n, cur) == ParseNumber(fmt, i, 0)
  {
    n, cur := 0, i;
    while IsDecimal(At(fmt, cur))
      invariant i <= cur <= |fmt| && ParseNumber(fmt, cur, n) == ParseNumber(fmt, i, 0)
      decreases |fmt| - cur
    {
      n := n * 10 + (fmt[cur] as int - 48);
      cur := cur + 1;
    }
  }

  method ReadFlags(fmt: seq<char>, i: nat) returns (left: bool, zero: bool, prepend: char, alt: bool, cur: nat)
    requires i <= |fmt|
    ensures (Flags(left, zero, prepend, alt), cur) == ParseFlags(fmt, i, NO_FLAGS)
  {
    left, zero, prepend, alt, cur := false, false, '\0', false, i;
    while IsFlag(At(fmt, cur))
      invariant i <= cur <= |fmt|
      invariant ParseFlags(fmt, cur, Flags(left, zero, prepend, alt)) == ParseFlags(fmt, i, NO_FLAGS)
      decreases |fmt| - cur
    {
      match fmt[cur] {
        case '-' =>
          left, zero := true, false;
        case '0' =>
          zero := !left;
        case '+' =>
          prepend := '+';
        case ' ' =>
          if prepend == '\0' {
            prepend := ' ';
          }
        case _ =>
          alt := true;
      }
      cur := cur + 1;
    }
  }

  method ReadWidth(fmt: seq<char>, i: nat) returns (widthOpt: Opt, width: nat, cur: nat)
    requires i <= |fmt|
    ensures (widthOpt, width, cur) == ParseWidth(fmt, i)
  {
    widthOpt, width, cur := NoOpt, 0, i;
    if At(fmt, cur) == '*' {
      widthOpt, cur := Star, cur + 1;
    } else {
      if IsDecimal(At(fmt, cur)) {
        widthOpt := Literal;
      }
      width, cur := ReadNumber(fmt, cur);
    }
  }

  method ReadPrecision(fmt: seq<char>, i: nat) returns (precOpt: Opt, prec: nat, cur: nat)
    requires i <= |fmt|
    ensures (precOpt, prec, cur) == ParsePrecision(fmt, i)
  {
    precOpt, prec, cur := NoOpt, 0, i;
    if At(fmt, cur) == '.' {
      cur := cur + 1;
      if At(fmt, cur) == '*' {
        precOpt, cur := Star, cur + 1;
      } else {
        if At(fmt, cur) == '-' {
          cur := cur + 1;
        } else {
          precOpt := Literal;
        }
        prec, cur := ReadNumber(fmt, cur);
      }
    }
  }

  /** 0 when the text at `start` is no specifier, else its length. */
  method ParseFormatSpec(fmt: seq<char>, start: nat) returns (length: nat, spec: Spec)
    requires start < |fmt| && fmt[start] == '%'
    ensures length == 0 <==> ParseSpec(fmt, start).None?
    ensures length != 0 ==> ParseSpec(fmt, start) == Some((spec, start + length))
  {
    var left, zero, prepend, alt, cur := ReadFlags(fmt, start + 1);
    var widthOpt, width, precOpt, prec;
    widthOpt, width, cur := ReadWidth(fmt, cur);
    precOpt, prec, cur := ReadPrecision(fmt, cur);
    var modifier;
    modifier, cur := ParseLength(fmt, cur).0, ParseLength(fmt, cur).1;
    var conv := ConversionOf(At(fmt, cur));
    if conv.None? {
      length, spec := 0, Spec('\0', false, NoOpt, 0, false, false, NoOpt, 0, Plain, Percent, true);
      return;
    }
    if conv.value == String || (IsInteger(conv.value) && precOpt != NoOpt) {
      zero := false;
    }
    if conv.value == Percent || conv.value == Char || conv.value == Pointer {
      precOpt := NoOpt;
    }
    spec := Spec(prepend, alt, widthOpt, width, left, zero, precOpt, prec, modifier, conv.value, At(fmt, cur) != 'X');
    length := cur + 1 - start;
  }

  // ---------- npf_itoa_rev and npf_utoa_rev ----------

  /** Division and remainder truncate toward zero. */
  function Quot(i: int, base: nat): int
    requires base > 0
  {
    if i >= 0 then i / base else -(-i / base)
  }

  function Rem(i: int, base: nat): int
    requires base > 0
  {
    i - base * Quot(i, base)
  }

  lemma QuotOfAbs(i: int)
    ensures Abs(Quot(i, 10)) == Abs(i) / 10
    ensures (if i >= 0 then Rem(i, 10) else -Rem(i, 10)) == Abs(i) % 10
    ensures i >= 0 ==> Quot(i, 10) >= 0
    ensures i <= 0 ==> Quot(i, 10) <= 0
  {
  }

  /** Digits of a signed number, last one first. */
  method ItoaRev(buf: array<char>, i: int) returns (n: nat)
    requires buf.Length == BUFFER && LONG_MIN <= i <= LONG_MAX
    modifies buf
    ensures n <= 22 && buf[..n] == RevDigits(Abs(i), 10, true)
  {
    ghost var target := RevDigits(Abs(i), 10, true);
    RevDigitsFit(Abs(i), 10, true);
    RemainingSteps(Abs(i), 10, true);
    QuotOfAbs(i);
    var negative := i < 0;
    buf[0] := (48 + if negative then -Rem(i, 10) else Rem(i, 10)) as char;
    n := 1;
    var rest := Quot(i, 10);
    assert buf[..1] == [DigitChar(Abs(i) % 10, true)];
    while rest != 0
      invariant 1 <= n <= BUFFER && (if negative then rest <= 0 else rest >= 0)
      invariant buf[..n] + Remaining(Abs(rest), 10, true) == target
      decreases Abs(rest)
    {
      QuotOfAbs(rest);
      WritesNext(buf[..n], Abs(rest), 10, true, target);
      ghost var before := buf[..n];
      buf[n] := (48 + if negative then -Rem(rest, 10) else Rem(rest, 10)) as char;
      assert buf[..n + 1] == before + [DigitChar(Abs(rest) % 10, true)];
      rest := Quot(rest, 10);
      n := n + 1;
    }
  }

  /** The last digit of a number, and the number without it. */
  method LastDigit(rest: nat, base: nat, lower: bool) returns (c: char, next: nat)
    requires base in {8, 10, 16}
    ensures RevDigits(rest, base, lower) == [c] + Remaining(next, base, lower) && (rest != 0 ==> next < rest)
  {
    RemainingSteps(rest, base, lower);
    c := DigitChar(rest % base, lower);
    next := rest / base;
  }

  /** One digit of the number that is left. */
  method PutDigit(buf: array<char>, n: nat, rest: nat, base: nat, lower: bool, ghost target: seq<char>) returns (next: nat)
    requires base in {8, 10, 16} && n < buf.Length && buf[..n] + RevDigits(rest, base, lower) == target && |target| <= 22
    modifies buf
    ensures n + 1 <= 22 && buf[..n + 1] + Remaining(next, base, lower) == target && (rest != 0 ==> next < rest)
  {
    ghost var before := buf[..n];
    var c;
    c, next := LastDigit(rest, base, lower);
    Associative(before, [c], Remaining(next, base, lower));
    buf[n] := c;
    assert buf[..n + 1] == before + [c];
  }

  /** Digits of an unsigned number, last one first. */
  method UtoaRev(buf: array<char>, i: nat, base: nat, lower: bool) returns (n: nat)
    requires buf.Length == BUFFER && i < 0x1_0000_0000_0000_0000 && base in {8, 10, 16}
    modifies buf
    ensures n <= 22 && buf[..n] == RevDigits(i, base, lower)
  {
    ghost var target := RevDigits(i, base, lower);
    RevDigitsFit(i, base, lower);
    assert buf[..0] + target == target;
    var rest := PutDigit(buf, 0, i, base, lower, target);
    n := 1;
    while rest != 0
      invariant 1 <= n <= 22
      invariant buf[..n] + Remaining(rest, base, lower) == target
      decreases rest
    {
      rest := PutDigit(buf, n, rest, base, lower, target);
      n := n + 1;
    }
  }

  lemma WritesNext(before: seq<char>, rest: nat, base: nat, lower: bool, target: seq<char>)
    requires base in {8, 10, 16} && rest != 0 && before + Remaining(rest, base, lower) == target && |target| <= 22
    ensures |before| < 22 && 0 <= rest / base < rest
    ensures (before + [DigitChar(rest % base, lower)]) + Remaining(rest / base, base, lower) == target
  {
    RemainingSteps(rest, base, lower);
    Associative(before, [DigitChar(rest % base, lower)], Remaining(rest / base, base, lower));
  }

  /** What the loop still has to write. */
  ghost function Remaining(n: nat, base: nat, lower: bool): seq<char>
    requires 2 <= base <= 16
  {
    if n == 0 then [] else RevDigits(n, base, lower)
  }

  lemma RemainingSteps(n: nat, base: nat, lower: bool)
    requires base in {8, 10, 16}
    ensures n / base <= n && (n != 0 ==> n / base < n)
    ensures RevDigits(n, base, lower) == [DigitChar(n % base, lower)] + Remaining(n / base, base, lower)
  {
    if n >= base {
      QuotientSmaller(n, base);
    }
  }

  lemma RevDigitsFit(n: nat, base: nat, lower: bool)
    requires n < 0x1_0000_0000_0000_0000 && base in {8, 10, 16}
    ensures |RevDigits(n, base, lower)| <= 22
  {
    DigitsFit(n, base, lower);
    DigitsAreReversed(n, base, lower);
  }

  // ---------- Output ----------

  /** The character sink: counts everything, stores what fits; without a buffer it stores nothing. */
  class Sink {
    const dst: array?<char>
    const len: nat
    var cur: nat
    var n: nat

    // Everything put so far.
    ghost var emitted: seq<char>

    ghost predicate Valid()
      reads this, dst
    {
      && n == |emitted|
      && (dst == null ==> cur == 0)
      && (dst != null ==> len <= dst.Length && cur == (if n < len then n else len) && dst[..cur] == emitted[..cur])
    }

    constructor (buffer: array?<char>, size: nat)
      requires buffer != null ==> size <= buffer.Length
      ensures Valid() && emitted == [] && dst == buffer && len == size
    {
      dst, len, cur, n, emitted := buffer, size, 0, 0, [];
    }

    method Putc(c: char)
      requires Valid()
      modifies this, dst
      ensures dst != null ==> dst[len..] == old(dst[len..])
      ensures Valid() && emitted == old(emitted) + [c]
    {
      n := n + 1;
      if dst != null && cur < len {
        dst[cur] := c;
        cur := cur + 1;
      }
      emitted := emitted + [c];
    }

    method PutAll(s: seq<char>)
      requires Valid()
      modifies this, dst
      ensures dst != null ==> dst[len..] == old(dst[len..])
      ensures Valid() && emitted == old(emitted) + s
    {
      for i := 0 to |s|
        invariant Valid() && emitted == old(emitted) + s[..i]
        invariant dst != null ==> dst[len..] == old(dst[len..])
      {
        Putc(s[i]);
        assert s[..i + 1] == s[..i] + [s[i]];
      }
      assert s[..|s|] == s;
    }

    method PutRepeated(c: char, count: int)
      requires Valid()
      modifies this, dst
      ensures dst != null ==> dst[len..] == old(dst[len..])
      ensures Valid() && emitted == old(emitted) + Repeat(c, count)
    {
      var left := count;
      while left > 0
        invariant left <= Max(0, count) && (count <= 0 ==> left == count)
        invariant Valid() && emitted == old(emitted) + Repeat(c, Max(0, count) - Max(0, left))
        invariant dst != null ==> dst[len..] == old(dst[len..])
      {
        ghost var done := Max(0, count) - left;
        assert Repeat(c, done + 1) == Repeat(c, done) + [c];
        Putc(c);
        left := left - 1;
      }
    }

    /** The converted digits, which lie in the buffer last one first. */
    method PutBackwards(cbuf: array<char>, count: nat, ghost body: seq<char>)
      requires Valid() && count <= cbuf.Length && Backwards(cbuf[..count], body) && cbuf != dst
      modifies this, dst
      ensures dst != null ==> dst[len..] == old(dst[len..])
      ensures Valid() && emitted == old(emitted) + body
    {
      var left := count;
      while left > 0
        invariant 0 <= left <= count && cbuf[..count] == old(cbuf[..count])
        invariant Valid() && emitted == old(emitted) + body[..count - left]
        invariant dst != null ==> dst[len..] == old(dst[len..])
      {
        left := left - 1;
        Putc(cbuf[left]);
        assert cbuf[left] == cbuf[..count][left] == body[count - 1 - left];
        assert body[..count - left] == body[..count - left - 1] + [body[count - 1 - left]];
      }
      assert body[..count] == body;
    }
  }

  ghost predicate Backwards(rev: seq<char>, s: seq<char>)
  {
    |rev| == |s| && forall k :: 0 <= k < |s| ==> rev[k] == s[|s| - 1 - k]
  }

  lemma RevDigitsBackwards(n: nat, base: nat, lower: bool)
    requires 2 <= base <= 16
    ensures Backwards(RevDigits(n, base, lower), Digits(n, base, lower))
  {
    DigitsAreReversed(n, base, lower);
    var rev := RevDigits(n, base, lower);
    assert Reversed(rev) == Digits(n, base, lower);
    forall k | 0 <= k < |rev|
      ensures rev[k] == Reversed(rev)[|rev| - 1 - k]
    {
    }
  }

  // ---------- npf_vpprintf ----------

  /** The argument as reversed text in `cbuf`, with the sign it needs. */
  method ConvertSignedInto(cbuf: array<char>, spec: Spec, val: int) returns (sign: char, count: nat)
    requires cbuf.Length == BUFFER && LONG_MIN <= val <= LONG_MAX
    modifies cbuf
    ensures var p := ConvertSigned(spec, val);
      sign == p.sign && count <= BUFFER && Backwards(cbuf[..count], p.body)
  {
    sign := if val < 0 then '-' else spec.prepend;
    count := 0;
    if !(val == 0 && spec.precOpt == Literal && spec.prec == 0) {
      count := ItoaRev(cbuf, val);
      RevDigitsBackwards(Abs(val), 10, true);
    }
  }

  /** The same for unsigned conversions, with the precision that is left and the letter of a prefix. */
  method ConvertUnsignedInto(cbuf: array<char>, spec: Spec, val: nat) returns (prefix: char, count: nat, prec: int)
    requires cbuf.Length == BUFFER && val < 0x1_0000_0000_0000_0000
    modifies cbuf
    ensures var p := ConvertUnsigned(spec, val);
      prefix == p.prefix && prec == p.prec && count <= BUFFER && Backwards(cbuf[..count], p.body)
  {
    prefix, count, prec := '\0', 0, spec.prec;
    var base := if spec.conv == Octal then 8 else if spec.conv == Hex then 16 else 10;
    if val == 0 && spec.precOpt == Literal && spec.prec == 0 {
      if spec.conv == Octal && spec.alt {
        prec := 1;
      }
    } else {
      count := UtoaRev(cbuf, val, base, spec.lower);
      RevDigitsBackwards(val, base, spec.lower);
    }
    ghost var digits := cbuf[..count];
    if val != 0 && spec.alt && spec.conv == Octal {
      cbuf[count] := '0';
      count := count + 1;
      assert cbuf[..count] == digits + ['0'];
    }
    if val != 0 && spec.alt && spec.conv == Hex {
      prefix := if spec.lower then 'x' else 'X';
    }
  }

  /** Converts one argument; a string is left where it is. */
  method ConvertInto(cbuf: array<char>, spec: Spec, args: Args, k: nat)
    returns (sign: char, prefix: char, count: nat, text: seq<char>, zero: bool, prec: int, next: nat)
    requires cbuf.Length == BUFFER
    modifies cbuf
    ensures var (p, m) := Convert(spec, args, k);
      && Piece(sign, prefix, p.body, zero, prec) == p && next == m && count == |p.body|
      && (spec.conv == String ==> text == p.body)
      && (spec.conv != String ==> count <= BUFFER && Backwards(cbuf[..count], p.body))
  {
    sign, prefix, count, text, zero, prec, next := '\0', '\0', 0, [], false, spec.prec, k;
    match spec.conv {
      case Percent =>
        cbuf[0] := '%';
        count := 1;
      case Char =>
        cbuf[0] := (args.num(k) % 0x100) as char;
        count, next := 1, k + 1;
      case String =>
        var s := args.str(k);
        while (spec.precOpt == NoOpt || count < spec.prec) && count < |s|
          invariant count <= |s| && (spec.precOpt != NoOpt ==> count <= Max(0, spec.prec))
        {
          count := count + 1;
        }
        text, next := s[..count], k + 1;
      case Signed =>
        var val := AsSigned(args.num(k), spec.length);
        sign, count := ConvertSignedInto(cbuf, spec, val);
        zero, next := val == 0, k + 1;
      case Pointer =>
        count := UtoaRev(cbuf, args.num(k) % 0x1_0000_0000_0000_0000, 16, true);
        RevDigitsBackwards(args.num(k) % 0x1_0000_0000_0000_0000, 16, true);
        prefix, next := 'x', k + 1;
      case _ =>
        var val := AsUnsigned(args.num(k), spec.length);
        prefix, count, prec := ConvertUnsignedInto(cbuf, spec, val);
        zero, next := val == 0, k + 1;
    }
  }

  method PutPrefix(sink: Sink, prefix: char)
    requires sink.Valid()
    modifies sink, sink.dst
    ensures sink.dst != null ==> sink.dst[sink.len..] == old(sink.dst[sink.len..])
    ensures sink.Valid() && sink.emitted == old(sink.emitted) + if prefix == '\0' then [] else ['0', prefix]
  {
    if prefix != '\0' {
      sink.Putc('0');
      sink.Putc(prefix);
    }
  }

  /** Sign, precision zeros and the converted text. */
  method PutPayload(sink: Sink, spec: Spec, sign: char, precPad: nat, cbuf: array<char>, count: nat, text: seq<char>, ghost body: seq<char>)
    requires sink.Valid() && cbuf != sink.dst && (spec.conv == String ==> sign == '\0' && precPad == 0 && text == body)
    requires spec.conv != String ==> count <= cbuf.Length && Backwards(cbuf[..count], body)
    modifies sink, sink.dst
    ensures sink.dst != null ==> sink.dst[sink.len..] == old(sink.dst[sink.len..])
    ensures sink.Valid()
    ensures sink.emitted == old(sink.emitted) + ((if sign == '\0' then [] else [sign]) + (Repeat('0', precPad) + body))
  {
    if spec.conv == String {
      assert Repeat('0', precPad) + body == body;
      sink.PutAll(text);
    } else {
      if sign != '\0' {
        sink.Putc(sign);
      }
      sink.PutRepeated('0', precPad);
      sink.PutBackwards(cbuf, count, body);
    }
  }

  /** The padding character, and how much padding precision and width ask for. */
  method Pads(spec: Spec, sign: char, prefix: char, zero: bool, prec: int, count: nat, ghost p: Piece)
    returns (pad: char, precPad: nat, fieldPad: nat)
    requires count == |p.body| && p == Piece(sign, prefix, p.body, zero, prec)
    ensures pad == PadChar(spec, p) && precPad == PrecPad(spec, p) && fieldPad == FieldPad(spec, p)
  {
    pad := '\0';
    if spec.widthOpt == Literal {
      if spec.zeroPad {
        if spec.conv != String && spec.conv != Char && spec.conv != Percent {
          if spec.precOpt == Literal && prec == 0 && zero {
            pad := ' ';
          } else {
            pad := '0';
          }
        }
      } else {
        pad := ' ';
      }
    }
    precPad := 0;
    if spec.conv != String {
      precPad := Max(0, prec - count);
    }
    var field := spec.width - count - (if sign != '\0' then 1 else 0);
    if prefix != '\0' {
      field := field - 2;
    }
    fieldPad := Max(0, field - precPad);
  }

  /** Pads and prints a converted piece. */
  method PutPiece(sink: Sink, spec: Spec, sign0: char, prefix: char, zero: bool, prec: int,
                  cbuf: array<char>, count: nat, text: seq<char>, ghost p: Piece)
    requires sink.Valid() && cbuf != sink.dst && count == |p.body| && p == Piece(sign0, prefix, p.body, zero, prec)
    requires spec.conv == String ==> text == p.body && sign0 == '\0' && prefix == '\0'
    requires spec.conv != String ==> count <= cbuf.Length && Backwards(cbuf[..count], p.body)
    modifies sink, sink.dst
    ensures sink.dst != null ==> sink.dst[sink.len..] == old(sink.dst[sink.len..])
    ensures sink.Valid() && sink.emitted == old(sink.emitted) + Assemble(spec, p)
  {
    var pad, precPad, fieldPad := Pads(spec, sign0, prefix, zero, prec, count, p);
    PieceIsJoined(spec, p, sink.emitted);
    var sign := PutLead(sink, spec, sign0, prefix, pad, fieldPad);
    PutPayload(sink, spec, sign, precPad, cbuf, count, text, p.body);
    if spec.left && pad != '\0' {
      sink.PutRepeated(pad, fieldPad);
    }
  }

  /** Lead, payload and trailing padding make up the piece. */
  lemma PieceIsJoined(spec: Spec, p: Piece, before: seq<char>)
    ensures var pad := PadChar(spec, p);
      var fill := Repeat(pad, FieldPad(spec, p));
      var payload := Repeat('0', PrecPad(spec, p)) + p.body;
      before + Assemble(spec, p) ==
        if !spec.left && pad == '0' then (before + (Sign(p) + Prefix(p) + fill)) + ([] + payload)
        else if !spec.left && pad != '\0' then (before + (fill + Prefix(p))) + (Sign(p) + payload)
        else if pad != '\0' then ((before + Prefix(p)) + (Sign(p) + payload)) + fill
        else (before + Prefix(p)) + (Sign(p) + payload)
  {
  }

  /** What goes in front of sign and payload; a sign in front of padding zeros is used up here. */
  method PutLead(sink: Sink, spec: Spec, sign0: char, prefix: char, pad: char, fieldPad: nat) returns (sign: char)
    requires sink.Valid()
    modifies sink, sink.dst
    ensures sink.dst != null ==> sink.dst[sink.len..] == old(sink.dst[sink.len..])
    ensures sink.Valid()
    ensures var sg, px := if sign0 == '\0' then [] else [sign0], if prefix == '\0' then [] else ['0', prefix];
      if !spec.left && pad == '0' then sign == '\0' && sink.emitted == old(sink.emitted) + (sg + px + Repeat(pad, fieldPad))
      else if !spec.left && pad != '\0' then sign == sign0 && sink.emitted == old(sink.emitted) + (Repeat(pad, fieldPad) + px)
      else sign == sign0 && sink.emitted == old(sink.emitted) + px
  {
    sign := sign0;
    if !spec.left && pad != '\0' {
      if pad == '0' {
        if sign != '\0' {
          sink.Putc(sign);
          sign := '\0';
        }
        PutPrefix(sink, prefix);
      }
      sink.PutRepeated(pad, fieldPad);
      if pad != '0' {
        PutPrefix(sink, prefix);
      }
    } else {
      PutPrefix(sink, prefix);
    }
  }

  /** Prints a format string; returns the number of characters put, stored or not. */
  method Vpprintf(sink: Sink, fmt: seq<char>, args: Args) returns (n: nat)
    requires sink.Valid() && sink.emitted == []
    modifies sink, sink.dst
    ensures sink.dst != null ==> sink.dst[sink.len..] == old(sink.dst[sink.len..])
    ensures sink.Valid() && sink.emitted == Render(fmt, 0, args, 0) && n == |Render(fmt, 0, args, 0)|
  {
    var cur, k := 0, 0;
    while cur < |fmt|
      invariant cur <= |fmt| && sink.Valid()
      invariant sink.dst != null ==> sink.dst[sink.len..] == old(sink.dst[sink.len..])
      invariant sink.emitted + Render(fmt, cur, args, k) == Render(fmt, 0, args, 0)
      decreases |fmt| - cur
    {
      cur, k := PutNext(sink, fmt, cur, args, k);
    }
    n := sink.n;
  }

  /** The next literal character or conversion of the format string. */
  method PutNext(sink: Sink, fmt: seq<char>, cur: nat, args: Args, k: nat) returns (cur': nat, k': nat)
    requires sink.Valid() && cur < |fmt|
    modifies sink, sink.dst
    ensures sink.dst != null ==> sink.dst[sink.len..] == old(sink.dst[sink.len..])
    ensures sink.Valid() && cur < cur' <= |fmt|
    ensures sink.emitted + Render(fmt, cur', args, k') == old(sink.emitted) + Render(fmt, cur, args, k)
  {
    var length, spec := 0, Spec('\0', false, NoOpt, 0, false, false, NoOpt, 0, Plain, Percent, true);
    if fmt[cur] == '%' {
      length, spec := ParseFormatSpec(fmt, cur);
    }
    if length == 0 {
      RenderLiteral(fmt, cur, args, k, sink.emitted);
      sink.Putc(fmt[cur]);
      cur', k' := cur + 1, k;
    } else {
      cur' := cur + length;
      k' := PutConversionAt(sink, fmt, cur, cur', spec, args, k);
    }
  }

  method PutConversionAt(sink: Sink, ghost fmt: seq<char>, ghost cur: nat, ghost cur': nat, spec: Spec, args: Args, k: nat)
    returns (k': nat)
    requires sink.Valid() && cur < |fmt| && fmt[cur] == '%' && ParseSpec(fmt, cur) == Some((spec, cur'))
    modifies sink, sink.dst
    ensures sink.dst != null ==> sink.dst[sink.len..] == old(sink.dst[sink.len..])
    ensures sink.Valid()
    ensures sink.emitted + Render(fmt, cur', args, k') == old(sink.emitted) + Render(fmt, cur, args, k)
  {
    RenderConversion(fmt, cur, args, k, sink.emitted);
    k' := PutConversion(sink, spec, args, k);
  }

  lemma RenderLiteral(fmt: seq<char>, cur: nat, args: Args, k: nat, before: seq<char>)
    requires cur < |fmt| && (fmt[cur] != '%' || ParseSpec(fmt, cur).None?)
    ensures (before + [fmt[cur]]) + Render(fmt, cur + 1, args, k) == before + Render(fmt, cur, args, k)
  {
  }

  lemma RenderConversion(fmt: seq<char>, cur: nat, args: Args, k: nat, before: seq<char>)
    requires cur < |fmt| && fmt[cur] == '%' && ParseSpec(fmt, cur).Some?
    ensures var (spec, next) := ParseSpec(fmt, cur).value;
      var (text, m) := Converted(spec, args, k);
      (before + text) + Render(fmt, next, args, m) == before + Render(fmt, cur, args, k)
  {
  }

  /** Width and precision given as arguments; a negative width means left justified. */
  method TakeStarArgs(spec: Spec, args: Args, k: nat) returns (s: Spec, l: nat)
    ensures (s, l) == TakeStars(spec, args, k)
  {
    s, l := spec, k;
    if s.widthOpt == Star {
      s := s.(widthOpt := Literal, width := args.num(l));
      l := l + 1;
      if s.width < 0 {
        s := s.(width := -s.width, left := true);
      }
    }
    if s.precOpt == Star {
      s := s.(precOpt := NoOpt, prec := args.num(l));
      l := l + 1;
      if s.prec >= 0 {
        s := s.(precOpt := Literal);
      }
    }
  }

  /** One conversion: star arguments, the value, padding and text. */
  method PutConversion(sink: Sink, spec: Spec, args: Args, k: nat) returns (next: nat)
    requires sink.Valid()
    modifies sink, sink.dst
    ensures sink.dst != null ==> sink.dst[sink.len..] == old(sink.dst[sink.len..])
    ensures sink.Valid()
    ensures next == Converted(spec, args, k).1
    ensures sink.emitted == old(sink.emitted) + Converted(spec, args, k).0
  {
    var s, l := TakeStarArgs(spec, args, k);
    var cbuf := new char[BUFFER];
    var sign, prefix, count, text, zero, prec;
    ghost var p := Convert(s, args, l).0;
    sign, prefix, count, text, zero, prec, next := ConvertInto(cbuf, s, args, l);
    PutPiece(sink, s, sign, prefix, zero, prec, cbuf, count, text, p);
  }

  // ---------- npf_vsnprintf ----------

  /**
    Prints into a buffer.  The result does not depend on the buffer: it is the length of
    the one text the format stands for.  A buffer that is there and not empty ends up
    with as much of that text as fits in front of a terminator.
   */
  method Vsnprintf(buffer: array?<char>, bufsz: nat, fmt: seq<char>, args: Args) returns (n: nat)
    requires buffer != null ==> bufsz <= buffer.Length
    modifies buffer
    ensures n == |Render(fmt, 0, args, 0)|
    ensures buffer != null && bufsz > 0 ==>
      var k := if n < bufsz then n else bufsz - 1;
      buffer[..k] == Render(fmt, 0, args, 0)[..k] && buffer[k] == '\0'
    ensures buffer != null ==> buffer[bufsz..] == old(buffer[bufsz..])
  {
    var sink := new Sink(buffer, bufsz);
    n := Vpprintf(sink, fmt, args);
    ghost var text := sink.emitted;
    sink.Putc('\0');
    if buffer != null && bufsz > 0 {
      ghost var filled := buffer[..];
      LastIsTerminator(filled, text, bufsz);
      buffer[bufsz - 1] := '\0';
      assert buffer[..] == filled[bufsz - 1 := '\0'];
    }
  }

  /** Writing a terminator into the last place ends the text where it fits, or cuts it there. */
  lemma LastIsTerminator(filled: seq<char>, text: seq<char>, bufsz: nat)
    requires 0 < bufsz <= |filled|
    requires var c := if |text| + 1 < bufsz then |text| + 1 else bufsz; filled[..c] == (text + ['\0'])[..c]
    ensures var k := if |text| < bufsz then |text| else bufsz - 1;
      var done := filled[bufsz - 1 := '\0'];
      done[..k] == text[..k] && done[k] == '\0'
  {
    var c := if |text| + 1 < bufsz then |text| + 1 else bufsz;
    var k := if |text| < bufsz then |text| else bufsz - 1;
    assert filled[..k] == filled[..c][..k] == text[..k];
    assert |text| < bufsz ==> filled[k] == filled[..c][k] == '\0';
  }

  // ---------- Printing and reading back ----------

  /** Measures the text, prints it into a buffer of that size and reads the buffer with strtol. */
  method PrintAndRead(x: SpecText, args: Args) returns (v: int)
    requires Telling(x, args)
    ensures v == Printed(x, args) <==> !Misread(x, args)
    ensures !x.width.WidthStar? ==> v == Printed(x, args)
  {
    var size := Vsnprintf(null, 0, Text(x), args);
    var buffer := new char[size + 1];
    var n := Vsnprintf(buffer, size + 1, Text(x), args);
    ReadsBackIff(x, args);
    assert buffer[..n] == Render(Text(x), 0, args, 0);
    var end;
    v, end := Strtol.Strtol(buffer[..n], ReadBase(x));
  }
}
