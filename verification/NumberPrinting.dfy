// The number printing of kernel/src/common/stdio.c, into the string file of the same source: one that
// takes what fits and reports a short write.
module NumberPrinting {
  import opened Arithmetic
  import opened Bytes
  import opened Numerals
  import opened Options

  const LOWER_HEX := "0123456789abcdef"
  const UPPER_HEX := "0123456789ABCDEF"
  const DECIMAL := "0123456789"

  datatype Flags = Flags(minus: bool, plus: bool, pound: bool, zero: bool)

  function Max(a: int, b: int): int {
    if a < b then b else a
  }

  // What fits of a text
  function Cut(t: string, n: nat): (r: string)
    ensures |r| == if |t| <= n then |t| else n
  {
    if |t| <= n then t else t[..n]
  }

  // The longest beginning of the text that fits
  lemma CutIs(t: string, n: nat)
    ensures Cut(t, n) <= t && |Cut(t, n)| == if |t| <= n then |t| else n
  {
  }

  lemma CutMore(t: string, s: string, n: nat)
    ensures Cut(t + s, n) == Cut(t, n) + Cut(s, n - |Cut(t, n)|)
    ensures |t| > n ==> Cut(t + s, n) == Cut(t, n)
  {
  }

  class StringFile {
    const buf: array<char>
    var at: nat
    var remaining: nat

    // There is room for the zero that closes the string.
    ghost predicate Valid()
      reads this
    {
      at + remaining < buf.Length
    }

    ghost function Out(): string
      requires Valid()
      reads this, buf
    {
      buf[..at]
    }

    constructor (size: nat)
      requires size > 0
      ensures Valid() && fresh(buf) && buf.Length == size && Out() == "" && remaining == size - 1
    {
      buf := new char[size];
      at, remaining := 0, size - 1;
    }

    method Write(s: string) returns (written: nat)
      requires Valid()
      modifies this, buf
      ensures Valid()
      ensures Out() == old(Out()) + Cut(s, old(remaining))
      ensures written == |Cut(s, old(remaining))| && remaining == old(remaining) - written
    {
      var len := |s|;
      if len > remaining {
        len := remaining;
      }
      var i := 0;
      while i < len
        invariant 0 <= i <= len
        invariant Valid() && at == old(at) && remaining == old(remaining)
        invariant buf[..at] == old(buf[..at])
        invariant buf[at..at + i] == s[..i]
      {
        buf[at + i] := s[i];
        i := i + 1;
      }
      assert buf[..at + len] == buf[..at] + buf[at..at + len];
      at := at + len;
      remaining := remaining - len;
      return len;
    }

    method Close()
      requires Valid()
      modifies buf
      ensures Out() == old(Out()) && buf[at] == '\0'
    {
      buf[at] := '\0';
    }

    // The printing of `t` has got as far as it can: `printed` of its characters went out.
    ghost predicate Sent(before: string, room: nat, t: string, printed: nat)
      requires Valid()
      reads this, buf
    {
      && Out() == before + Cut(t, room)
      && printed == |Cut(t, room)|
      && remaining == room - printed
    }

    // One checked write of a longer printing
    method Send(ghost before: string, ghost room: nat, ghost t: string, s: string, printed: nat)
      returns (ok: bool, total: nat)
      requires Valid() && Sent(before, room, t, printed)
      modifies this, buf
      ensures Valid() && Sent(before, room, t + s, total) && total == |Cut(t + s, room)|
      ensures ok <==> |s| <= room - printed
      ensures !ok ==> |t + s| > room
    {
      var written := Write(s);
      CutMore(t, s, room);
      return written == |s|, printed + written;
    }

    lemma Short(before: string, room: nat, t: string, rest: string, printed: nat)
      requires Valid() && Sent(before, room, t, printed) && |t| > room
      ensures Sent(before, room, t + rest, printed) && printed == |Cut(t + rest, room)|
    {
      CutMore(t, rest, room);
    }

    // A piece of padding
    method SendMore(ghost before: string, ghost room: nat, ghost t: string, c: char, ghost m: nat, n: nat,
                    printed: nat)
      returns (ok: bool, total: nat)
      requires Valid() && Sent(before, room, t + Repeat(c, m), printed)
      modifies this, buf
      ensures Valid() && Sent(before, room, t + Repeat(c, m + n), total)
      ensures total == |Cut(t + Repeat(c, m + n), room)|
      ensures ok <==> n <= room - printed
      ensures ok ==> total == printed + n
      ensures !ok ==> |t + Repeat(c, m + n)| > room
    {
      RepMore(t, c, m, n);
      ok, total := Send(before, room, t + Repeat(c, m), Repeat(c, n), printed);
    }

    lemma ShortMore(before: string, room: nat, t: string, c: char, m: nat, n: nat, printed: nat)
      requires Valid() && Sent(before, room, t + Repeat(c, m), printed) && |t + Repeat(c, m)| > room
      ensures Sent(before, room, t + Repeat(c, m + n), printed) && printed == |Cut(t + Repeat(c, m + n), room)|
    {
      RepMore(t, c, m, n);
      Short(before, room, t + Repeat(c, m), Repeat(c, n), printed);
    }

    // Padding, in pieces of at most 64 characters. The result is 0 for success, but also when
    // nothing at all could be written.
    method WriteRep(ghost before: string, ghost room: nat, ghost t: string, count: nat, c: char, printed: nat)
      returns (failed: nat, total: nat)
      requires Valid() && Sent(before, room, t, printed)
      modifies this, buf
      ensures Valid() && Sent(before, room, t + Repeat(c, count), total)
      ensures failed == if count > room - printed then total else 0
      ensures total == |Cut(t + Repeat(c, count), room)|
    {
      assert printed <= room;
      hide Sent, Cut, Repeat;
      var left: nat := count;
      total := printed;
      ghost var sent := 0;
      assert t + Repeat(c, sent) == t;
      while left > 64
        invariant sent + left == count
        invariant Valid() && Sent(before, room, t + Repeat(c, sent), total)
        invariant total == printed + sent <= room
      {
        var ok;
        ok, total := SendMore(before, room, t, c, sent, 64, total);
        sent := sent + 64;
        left := left - 64;
        if !ok {
          ShortMore(before, room, t, c, sent, left, total);
          assert sent + left == count;
          return total, total;
        }
      }
      var ok;
      ok, total := SendMore(before, room, t, c, sent, left, total);
      assert sent + left == count;
      failed := if ok then 0 else total;
    }
  }

  lemma RepMore(t: string, c: char, m: nat, n: nat)
    ensures t + Repeat(c, m) + Repeat(c, n) == t + Repeat(c, m + n)
  {
  }

  // A precision of -1 stands for none.
  function GivenPrecision(precision: int): int {
    if precision == -1 then 1 else precision
  }

  // Hexadecimal

  function HexPrecision(value: nat, precision: int): nat {
    Max(DigitCount(16, value), GivenPrecision(precision))
  }

  function HexPrefix(prefix: string, flags: Flags): string {
    if flags.pound then prefix else ""
  }

  function Padding(width: nat, minWidth: int): nat {
    if minWidth <= width then 0 else minWidth - width
  }

  function Field(pre: string, digits: string, pad: nat, flags: Flags): string {
    if flags.minus then pre + digits + Repeat(' ', pad)
    else if flags.zero then pre + Repeat('0', pad) + digits
    else Repeat(' ', pad) + pre + digits
  }

  function HexText(value: nat, precision: int, prefix: string, alpha: string, flags: Flags, minWidth: int): string
    requires |alpha| == 16
  {
    var pre, n := HexPrefix(prefix, flags), HexPrecision(value, precision);
    Field(pre, Numeral(alpha, value, n), Padding(|pre| + n, minWidth), flags)
  }

  lemma DigitsNeeded(value: nat, precision: int)
    ensures var asked, digits := if precision == -1 then 1 else precision, HexPrecision(value, precision);
      && digits >= asked && value < Pow(16, digits)
      && (digits > asked && digits > 0 ==> Pow(16, digits - 1) <= value)
    ensures DigitCount(16, value) <= HexPrecision(value, precision)
  {
    hide DigitCount, Pow;
    var digits := HexPrecision(value, precision);
    CountBound(16, value, digits);
    if digits > 0 {
      CountBound(16, value, digits - 1);
    }
  }

  // What the text is: spaces on one side only, the prefix if it is asked for, and a numeral that reads as
  // the value, of as many digits as the value needs and the precision (one, if there is none) asks for.
  lemma HexTextMeans(value: nat, precision: int, prefix: string, alpha: string, flags: Flags, minWidth: int)
    returns (left: nat, numeral: string, right: nat, digits: nat)
    requires |alpha| == 16 && Alphabet(alpha)
    ensures var pre, text := if flags.pound then prefix else "",
                             HexText(value, precision, prefix, alpha, flags, minWidth);
      && text == Repeat(' ', left) + pre + numeral + Repeat(' ', right)
      && |text| == Max(minWidth, |pre| + digits)
    ensures IsNumeral(16, numeral) && Parse(16, numeral) == value
    ensures var asked := if precision == -1 then 1 else precision;
      && digits >= asked && value < Pow(16, digits)
      && (digits > asked && digits > 0 ==> Pow(16, digits - 1) <= value)
    ensures if flags.minus then left == 0 else right == 0
    ensures !flags.minus && flags.zero ==> left == 0
    ensures flags.minus || !flags.zero ==> |numeral| == digits
  {
    hide Numeral, Parse, IsNumeral, DigitCount, Alphabet, Pow, HexPrecision;
    var pre := HexPrefix(prefix, flags);
    digits := HexPrecision(value, precision);
    DigitsNeeded(value, precision);
    var s := Numeral(alpha, value, digits);
    NumeralIsOne(alpha, value, digits);
    NumeralRoundTrip(alpha, value, digits);
    var zeros;
    left, zeros, right := FieldParts(pre, s, Padding(|pre| + digits, minWidth), flags);
    hide Repeat, Field;
    numeral := Repeat('0', zeros) + s;
    LeadingZeros(16, zeros, s);
  }

  lemma FieldParts(pre: string, digits: string, pad: nat, flags: Flags) returns (left: nat, zeros: nat, right: nat)
    ensures Field(pre, digits, pad, flags) ==
            Repeat(' ', left) + pre + (Repeat('0', zeros) + digits) + Repeat(' ', right)
    ensures left + zeros + right == pad && |Field(pre, digits, pad, flags)| == |pre| + |digits| + pad
    ensures if flags.minus then left == zeros == 0 else right == 0
    ensures if flags.zero then left == 0 else zeros == 0
  {
    left, zeros, right :=
      if !flags.minus && !flags.zero then pad else 0,
      if !flags.minus && flags.zero then pad else 0,
      if flags.minus then pad else 0;
    var r := Repeat('0', zeros);
    assert r + digits == if zeros == 0 then digits else r + digits;
  }

  lemma DigitInFront(alpha: string, b: nat, v: nat, k: nat, after: string)
    requires |alpha| == b >= 2 && k > 0
    ensures Numeral(alpha, v, k) + after == Numeral(alpha, v / b, k - 1) + ([alpha[v % b]] + after)
  {
    hide Numeral;
    NumeralStep(alpha, v, k);
  }

  // The digits, from the last to the first
  method HexDigits(value: nat, precision: nat, alpha: string) returns (buffer: array<char>)
    requires precision <= 16 && |alpha| == 16
    ensures buffer.Length == 66 && buffer[..precision] == Numeral(alpha, value, precision)
  {
    buffer := new char[66](_ => '\0');
    var v := value;
    var idx: int := precision - 1;
    assert buffer[precision..precision] == "";
    while idx >= 0
      invariant -1 <= idx < precision
      invariant Numeral(alpha, value, precision) == Numeral(alpha, v, idx + 1) + buffer[idx + 1..precision]
    {
      ghost var after := buffer[idx + 1..precision];
      DigitInFront(alpha, 16, v, idx + 1, after);
      var digit := v % 16;
      v := v / 16;
      buffer[idx] := alpha[digit];
      assert buffer[idx..precision] == [alpha[digit]] + after;
      idx := idx - 1;
    }
    NumeralNone(alpha, v);
    assert buffer[0..precision] == buffer[..precision];
  }

  // The number without its padding
  method SendNumber(stream: StringFile, ghost before: string, ghost room: nat, ghost t: string, pre: string,
                    digits: string, sofar: nat)
    returns (ok: bool, printed: nat)
    requires stream.Valid() && stream.Sent(before, room, t, sofar)
    modifies stream, stream.buf
    ensures stream.Valid() && stream.Sent(before, room, t + pre + digits, printed)
    ensures printed == |Cut(t + pre + digits, room)|
    ensures ok <==> |pre + digits| <= room - sofar
  {
    ok, printed := stream.Send(before, room, t, pre, sofar);
    if !ok {
      stream.Short(before, room, t + pre, digits, printed);
      return;
    }
    ok, printed := stream.Send(before, room, t + pre, digits, printed);
  }

  // The writes of print_unsigned_int: the prefix (when asked for), the digits and the padding, in the
  // order that the flags ask for. A count comes back only from a write that falls short; after a
  // complete print the function ends without a return. None stands for that.
  method PrintField(stream: StringFile, pre: string, digits: string, pad: nat, flags: Flags)
    returns (count: Option<nat>)
    requires stream.Valid()
    modifies stream, stream.buf
    ensures stream.Valid()
    ensures stream.Out() == old(stream.Out()) + Cut(Field(pre, digits, pad, flags), old(stream.remaining))
    ensures count.Some? <==>
      && |Field(pre, digits, pad, flags)| > old(stream.remaining)
      && (old(stream.remaining) > 0 || pre != "" || digits != "")
    ensures count.Some? ==> count.value == old(stream.remaining)
  {
    ghost var before, room := stream.Out(), stream.remaining;
    assert stream.Sent(before, room, "", 0);
    var printed := PrintParts(stream, before, room, pre, digits, pad, flags);
    count := printed.1;
  }

  function FieldCount(pre: string, digits: string, pad: nat, room: nat): Option<nat> {
    if |pre| + |digits| + pad > room && (room > 0 || |pre| + |digits| > 0) then Some(room) else None
  }

  method PrintParts(stream: StringFile, ghost before: string, ghost room: nat, pre: string, digits: string,
                    pad: nat, flags: Flags)
    returns (r: (nat, Option<nat>))
    requires stream.Valid() && stream.Sent(before, room, "", 0)
    modifies stream, stream.buf
    ensures stream.Valid() && stream.Sent(before, room, Field(pre, digits, pad, flags), r.0)
    ensures r.1 == FieldCount(pre, digits, pad, room)
  {
    hide stream.Sent, Cut, Repeat;
    ghost var text := Field(pre, digits, pad, flags);
    var ok, failed, printed := true, 0, 0;
    if pad == 0 {
      assert "" + pre + digits == text;
      ok, printed := SendNumber(stream, before, room, "", pre, digits, printed);
      return (printed, if ok then None else Some(printed));
    } else if flags.minus {
      assert "" + pre + digits + Repeat(' ', pad) == text;
      ok, printed := SendNumber(stream, before, room, "", pre, digits, printed);
      if !ok {
        stream.Short(before, room, "" + pre + digits, Repeat(' ', pad), printed);
        return (printed, Some(printed));
      }
      failed, printed := stream.WriteRep(before, room, "" + pre + digits, pad, ' ', printed);
      return (printed, if failed != 0 then Some(printed) else None);
    } else if flags.zero {
      assert "" + pre + Repeat('0', pad) + digits == text;
      ok, printed := stream.Send(before, room, "", pre, printed);
      if !ok {
        stream.Short(before, room, "" + pre, Repeat('0', pad), printed);
        stream.Short(before, room, "" + pre + Repeat('0', pad), digits, printed);
        return (printed, Some(printed));
      }
      failed, printed := stream.WriteRep(before, room, "" + pre, pad, '0', printed);
      if failed != 0 {
        stream.Short(before, room, "" + pre + Repeat('0', pad), digits, printed);
        return (printed, Some(printed));
      }
      ok, printed := stream.Send(before, room, "" + pre + Repeat('0', pad), digits, printed);
      return (printed, if ok then None else Some(printed));
    } else {
      assert "" + Repeat(' ', pad) + pre + digits == text;
      failed, printed := stream.WriteRep(before, room, "", pad, ' ', printed);
      if failed != 0 {
        stream.Short(before, room, "" + Repeat(' ', pad), pre, printed);
        stream.Short(before, room, "" + Repeat(' ', pad) + pre, digits, printed);
        return (printed, Some(printed));
      }
      ok, printed := SendNumber(stream, before, room, "" + Repeat(' ', pad), pre, digits, printed);
      return (printed, if ok then None else Some(printed));
    }
  }

  // print_unsigned_int with radix 16 and a precision of at most 16. What goes out is the text, or the
  // part of it that fits. A count comes back exactly when a write falls short, and it is that of the
  // characters that went out; but none does when there is no room and nothing to print but padding, of
  // which write_rep then reports 0 characters, as it reports success.
  method PrintHex(stream: StringFile, value: nat, precision: int, prefix: string, alpha: string, flags: Flags,
                  minWidth: int)
    returns (count: Option<nat>)
    requires stream.Valid() && value < WORDS && precision <= 16 && |alpha| == 16
    modifies stream, stream.buf
    ensures stream.Valid()
    ensures stream.Out() == old(stream.Out()) +
              Cut(HexText(value, precision, prefix, alpha, flags, minWidth), old(stream.remaining))
    ensures count.Some? <==>
      && |HexText(value, precision, prefix, alpha, flags, minWidth)| > old(stream.remaining)
      && (old(stream.remaining) > 0 || HexPrefix(prefix, flags) != "" || HexPrecision(value, precision) > 0)
    ensures count.Some? ==> count.value == old(stream.remaining)
  {
    hide Numeral, DigitCount, Field, Cut;
    Widths(value);
    var actual := if precision == -1 then 1 else precision;
    var leadingZeros := 64 - DigitCount(2, value);
    var needed := 16 - leadingZeros / 4;
    if needed > actual {
      actual := needed;
    }
    var buffer := HexDigits(value, actual, alpha);
    var pre := if flags.pound then prefix else "";
    var effectiveWidth := if flags.pound then actual + |prefix| else actual;
    var padding := if minWidth <= effectiveWidth then 0 else minWidth - effectiveWidth;
    count := PrintField(stream, pre, buffer[..actual], padding, flags);
  }

  // What the source passes to it
  lemma UpperIsAlphabet()
    ensures |UPPER_HEX| == 16 && Alphabet(UPPER_HEX)
  {
  }

  lemma LowerIsAlphabet()
    ensures |LOWER_HEX| == 16 && Alphabet(LOWER_HEX)
  {
  }

  // Decimal, without a sign

  // What goes out: the padding, the part of the precision above 20, and the digits. The padding is
  // zeros whatever the flags say.
  function DecimalZeros(precision: nat, minWidth: int): nat {
    Padding(precision, minWidth) + Max(precision - 20, 0)
  }

  function DecimalDigits(value: nat, precision: nat): nat {
    Max(DigitCount(10, value), if precision <= 20 then precision else 20)
  }

  function DecimalText(value: nat, precision: nat, minWidth: int): string {
    Repeat('0', DecimalZeros(precision, minWidth)) + Numeral(DECIMAL, value, DecimalDigits(value, precision))
  }

  // All of it is one numeral that reads as the value. It is as long as the C standard asks for (section
  // 7.21.6.1 of ISO C11) unless the precision is below both the number of digits and the width.
  lemma DecimalTextMeans(value: nat, precision: nat, minWidth: int)
    requires value < WORDS
    ensures IsNumeral(10, DecimalText(value, precision, minWidth))
    ensures Parse(10, DecimalText(value, precision, minWidth)) == value
    ensures |DecimalText(value, precision, minWidth)| == Max(minWidth, Max(precision, DigitCount(10, value)))
      <==> !(precision < DigitCount(10, value) && precision < minWidth)
  {
    hide Numeral, DigitCount, Parse, IsNumeral;
    Widths(value);
    assert Alphabet(DECIMAL);
    var n := DecimalDigits(value, precision);
    NumeralIsOne(DECIMAL, value, n);
    NumeralRoundTrip(DECIMAL, value, n);
    LeadingZeros(10, DecimalZeros(precision, minWidth), Numeral(DECIMAL, value, n));
  }

  // What section 7.21.6.1 of ISO C11 asks for: as many digits as the precision, at least, and then
  // padding to the width, with zeros only where no precision was given, and on the right for a minus.
  function CText(value: nat, precision: int, flags: Flags, minWidth: int): string
    requires precision >= -1
  {
    var digits := Numeral(DECIMAL, value, Max(DigitCount(10, value), GivenPrecision(precision)));
    Padded(digits, Padding(|digits|, minWidth), flags.minus, flags.zero && precision == -1)
  }

  function Padded(digits: string, pad: nat, right: bool, zeros: bool): string {
    if right then digits + Repeat(' ', pad)
    else if zeros then Repeat('0', pad) + digits
    else Repeat(' ', pad) + digits
  }

  // Zeros in front are the padding asked for if and only if there are none, or they are asked for.
  lemma PaddedAlike(digits: string, n: nat, pad: nat, right: bool, zeros: bool)
    requires IsNumeral(10, Repeat('0', n) + digits) && pad <= n
    ensures Repeat('0', n) + digits == Padded(digits, pad, right, zeros) <==>
      n == 0 || (zeros && !right && pad == n)
  {
    var padded := Padded(digits, pad, right, zeros);
    assert |padded| == pad + |digits|;
    if pad > 0 && (right || !zeros) {
      SpaceIsNoDigit(padded, if right then |digits| else 0);
    }
  }

  // The text is the one of the standard if and only if there is no width beyond the precision, or the
  // zero flag asks for zeros and the value has one digit, so that the width is counted right.
  lemma DecimalIsCIff(value: nat, precision: int, flags: Flags, minWidth: int)
    requires value < WORDS && precision >= -1
    ensures DecimalText(value, GivenPrecision(precision), minWidth) == CText(value, precision, flags, minWidth) <==>
      minWidth <= GivenPrecision(precision) || (flags.zero && !flags.minus && precision == -1 && value < 10)
  {
    hide Numeral, DigitCount, IsNumeral, Parse, Padded, Repeat;
    var p, d := GivenPrecision(precision), DigitCount(10, value);
    DecimalTextMeans(value, p, minWidth);
    OneDigit(value);
    DecimalIsPadded(value, p, minWidth);
    var n := Padding(p, minWidth);
    PaddedAlike(Numeral(DECIMAL, value, Max(d, p)), n, Padding(Max(d, p), minWidth), flags.minus,
                flags.zero && precision == -1);
  }

  lemma DecimalIsPadded(value: nat, p: nat, minWidth: int)
    requires value < WORDS
    ensures DecimalText(value, p, minWidth) ==
            Repeat('0', Padding(p, minWidth)) + Numeral(DECIMAL, value, Max(DigitCount(10, value), p))
  {
    hide Numeral, DigitCount;
    Widths(value);
    var n, extra := DecimalDigits(value, p), Max(p - 20, 0);
    NumeralPadded(DECIMAL, value, n, extra);
    assert Max(DigitCount(10, value), p) == n + extra;
    RepMore("", '0', Padding(p, minWidth), extra);
  }

  lemma OneDigit(value: nat)
    ensures DigitCount(10, value) <= 1 <==> value < 10
  {
    CountStep(10, value);
    CountStep(10, value / 10);
  }

  lemma SpaceIsNoDigit(t: string, i: nat)
    requires i < |t| && t[i] == ' '
    ensures !IsNumeral(10, t)
  {
    assert CharValue(t[i]) == 255;
  }

  // The value 7 in a width of 4: "0007" where the standard asks for three spaces.
  lemma SevenInFour()
    ensures DecimalText(7, 1, 4) == "0007"
    ensures CText(7, -1, Flags(false, false, false, false), 4) == "   7"
  {
    var seven, one := 7, 1;
    CountStep(10, seven);
    CountStep(10, seven / 10);
    NumeralStep(DECIMAL, seven, one);
    NumeralNone(DECIMAL, seven / 10);
    hide Numeral, DigitCount;
    assert Numeral(DECIMAL, seven, one) == "7";
    assert Repeat('0', 3) == "000" && Repeat(' ', 3) == "   ";
  }

  // The loop fills the 21-byte buffer from its end; `bpos` never goes below the beginning.
  method DecimalBuffer(value: nat, precision: nat) returns (buffer: array<char>, bpos: nat)
    requires value < WORDS
    ensures buffer.Length == 21 && bpos <= 20
    ensures buffer[bpos..20] == Numeral(DECIMAL, value, DecimalDigits(value, precision))
  {
    hide Numeral, DigitCount;
    Widths(value);
    buffer := new char[21](_ => '\0');
    bpos := 20;
    var v := value;
    var realPrecision: int := if precision <= 20 then precision else 20;
    ghost var n := DecimalDigits(value, precision);
    NoDigits(DECIMAL);
    assert buffer[20..20] == "";
    CountStep(10, v);
    while v != 0 || realPrecision > 0
      invariant 20 - n <= bpos <= 20
      invariant realPrecision == (if precision <= 20 then precision else 20) - (20 - bpos)
      invariant if v == 0 then DigitCount(10, value) <= 20 - bpos
                else DigitCount(10, v) == DigitCount(10, value) - (20 - bpos) > 0
      invariant Numeral(DECIMAL, value, n) == Numeral(DECIMAL, v, n - (20 - bpos)) + buffer[bpos..20]
      decreases bpos
    {
      var digit := v % 10;
      ghost var after := buffer[bpos..20];
      CountStep(10, v);
      DigitInFront(DECIMAL, 10, v, n - (20 - bpos), after);
      v := v / 10;
      CountStep(10, v);
      bpos := bpos - 1;
      buffer[bpos] := DECIMAL[digit];
      realPrecision := realPrecision - 1;
      assert buffer[bpos..20] == [DECIMAL[digit]] + after;
    }
    NumeralEnd(DECIMAL, v, n - (20 - bpos));
  }

  lemma NoDigits(alpha: string)
    requires |alpha| >= 2
    ensures forall v: nat :: Numeral(alpha, v, 0) == ""
  {
  }

  lemma NumeralEnd(alpha: string, v: nat, k: nat)
    requires |alpha| >= 2
    ensures k == 0 ==> Numeral(alpha, v, k) == ""
  {
  }

  // print_dec_int for an unsigned value without the plus flag
  method PrintDecimal(stream: StringFile, value: nat, precision: int, flags: Flags, minWidth: int)
    returns (printed: nat)
    requires stream.Valid() && value < WORDS && precision >= -1 && !flags.plus
    modifies stream, stream.buf
    ensures stream.Valid()
    ensures var text := DecimalText(value, GivenPrecision(precision), minWidth);
            && stream.Out() == old(stream.Out()) + Cut(text, old(stream.remaining))
            && printed == |Cut(text, old(stream.remaining))|
  {
    hide Numeral, DigitCount;
    var actual := if precision == -1 then 1 else precision;
    var buffer, bpos := DecimalBuffer(value, actual);
    var realPrecision := if actual <= 20 then actual else 20;
    var extraPrecision := actual - realPrecision;
    var spaces := if actual < minWidth then minWidth - actual else 0;
    if flags.zero {
      extraPrecision := extraPrecision + spaces;
      spaces := 0;
    }
    printed := PrintZeros(stream, spaces, extraPrecision, buffer[bpos..20]);
  }

  // Both paddings are written by the same loop; a short write ends the printing at once.
  method PrintZeros(stream: StringFile, spaces: nat, extra: nat, digits: string) returns (printed: nat)
    requires stream.Valid()
    modifies stream, stream.buf
    ensures stream.Valid()
    ensures stream.Sent(old(stream.Out()), old(stream.remaining), Repeat('0', spaces + extra) + digits, printed)
  {
    ghost var before, room := stream.Out(), stream.remaining;
    assert stream.Sent(before, room, "", 0);
    hide stream.Sent;
    RepMore("", '0', spaces, extra);
    ghost var text := "" + Repeat('0', spaces) + Repeat('0', extra) + digits;
    assert text == Repeat('0', spaces + extra) + digits;
    var ok;
    ok, printed := WriteZeros(stream, before, room, "", spaces, 0);
    if !ok {
      stream.Short(before, room, "" + Repeat('0', spaces), Repeat('0', extra), printed);
      stream.Short(before, room, "" + Repeat('0', spaces) + Repeat('0', extra), digits, printed);
      return;
    }
    ok, printed := WriteZeros(stream, before, room, "" + Repeat('0', spaces), extra, printed);
    if !ok {
      stream.Short(before, room, "" + Repeat('0', spaces) + Repeat('0', extra), digits, printed);
      return;
    }
    ok, printed := stream.Send(before, room, "" + Repeat('0', spaces) + Repeat('0', extra), digits, printed);
  }

  method WriteZeros(stream: StringFile, ghost before: string, ghost room: nat, ghost t: string, count: nat, sofar: nat)
    returns (ok: bool, printed: nat)
    requires stream.Valid() && stream.Sent(before, room, t, sofar)
    modifies stream, stream.buf
    ensures stream.Valid() && stream.Sent(before, room, t + Repeat('0', count), printed)
    ensures !ok ==> |t + Repeat('0', count)| > room
  {
    hide stream.Sent, Repeat;
    var left: nat := count;
    printed := sofar;
    assert t + Repeat('0', 0) == t;
    while left > 64
      invariant left <= count
      invariant stream.Valid() && stream.Sent(before, room, t + Repeat('0', count - left), printed)
    {
      ok, printed := stream.SendMore(before, room, t, '0', count - left, 64, printed);
      if !ok {
        stream.ShortMore(before, room, t, '0', count - left + 64, left - 64, printed);
        return;
      }
      left := left - 64;
    }
    ok, printed := stream.SendMore(before, room, t, '0', count - left, left, printed);
  }
}
