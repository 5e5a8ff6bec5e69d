/** Laws of the printf engine: formats compose, numbers survive the trip through text, fields have their
    width, output stays in bounds, and the places where the engine differs from the C standard. */
module PrintfLaws {
  import opened Bits
  import opened Common
  import opened PrintfSpec
  import opened Printf

  // ---------------------------------------------------------------- composition

  lemma {:induction false} FlagRunStops(a: string, b: string)
    requires FlagRun(a) < |a|
    ensures FlagRun(a + b) == FlagRun(a)
  {
    if IsFlag(a[0]) {
      assert (a + b)[1..] == a[1..] + b;
      FlagRunStops(a[1..], b);
    }
  }

  lemma {:induction false} DigitRunStops(a: string, b: string)
    requires DigitRun(a) < |a|
    ensures DigitRun(a + b) == DigitRun(a)
  {
    if IsDigit(a[0]) {
      assert (a + b)[1..] == a[1..] + b;
      DigitRunStops(a[1..], b);
    }
  }

  lemma ParseSizeStops(a: string, b: string)
    requires ParseSize(a).1 != ""
    ensures ParseSize(a + b) == (ParseSize(a).0, ParseSize(a).1 + b)
  {
    hide Decimal;
    if IsDigit(a[0]) {
      DigitRunStops(a, b);
      assert (a + b)[..DigitRun(a)] == a[..DigitRun(a)];
      assert (a + b)[DigitRun(a)..] == a[DigitRun(a)..] + b;
    } else {
      assert (a + b)[1..] == a[1..] + b;
    }
  }

  lemma ParseLengthStops(a: string, b: string)
    requires ParseLength(a).1 != ""
    ensures ParseLength(a + b) == (ParseLength(a).0, ParseLength(a).1 + b)
  {
    assert (a + b)[1..] == a[1..] + b;
    if |a| > 1 { assert (a + b)[2..] == a[2..] + b; }
  }

  /** A complete conversion is read the same way whatever follows it. */
  lemma ParseConvStops(a: string, b: string)
    requires ParseConv(a).Some?
    ensures ParseConv(a + b) == Some((ParseConv(a).value.0, ParseConv(a).value.1 + b))
  {
    hide ParseSize, ParseLength, FlagsIn, FlagRun;
    var k := FlagRun(a);
    var (width, f1) := ParseSize(a[k..]);
    var hasPrec := f1 != "" && f1[0] == '.';
    var (prec, f2) := if hasPrec then ParseSize(f1[1..]) else (Given(0), f1);
    var (length, f3) := ParseLength(f2);
    ParseLengthStops(f2, b);
    if hasPrec {
      ParseSizeStops(f1[1..], b);
      assert (f1 + b)[1..] == f1[1..] + b;
    }
    FlagRunStops(a, b);
    assert (a + b)[k..] == a[k..] + b && (a + b)[..k] == a[..k];
    ParseSizeStops(a[k..], b);
    assert (f3 + b)[1..] == f3[1..] + b;
  }

  lemma {:induction false} ParseConcat(a: string, b: string)
    requires Parse(a).Some?
    ensures Parse(a + b) == match Parse(b) case None => None case Some(db) => Some(Parse(a).value + db)
    decreases |a|
  {
    hide ParseConv;
    if a == "" {
      assert a + b == b;
      if Parse(b).Some? { assert [] + Parse(b).value == Parse(b).value; }
    } else {
      assert (a + b)[1..] == a[1..] + b;
      if a[0] != '%' {
        ParseConcat(a[1..], b);
        if Parse(b).Some? {
          assert [Literal(a[0])] + (Parse(a[1..]).value + Parse(b).value) == Parse(a).value + Parse(b).value;
        }
      } else {
        ParseConvStops(a[1..], b);
        ParseConvShrinks(a[1..]);
        var (d, rest) := ParseConv(a[1..]).value;
        ParseConcat(rest, b);
        if Parse(b).Some? {
          assert [d] + (Parse(rest).value + Parse(b).value) == Parse(a).value + Parse(b).value;
        }
      }
    }
  }

  /** The arguments a list of directives leaves over. */
  function Leftover(ds: seq<Directive>, args: seq<Arg>): seq<Arg> {
    if ds == [] then args
    else if ds[0].Literal? then Leftover(ds[1..], args)
    else match RenderConv(ds[0], args)
      case None => []
      case Some((_, rest)) => Leftover(ds[1..], rest)
  }

  lemma {:induction false} RenderConcat(da: seq<Directive>, db: seq<Directive>, args: seq<Arg>)
    requires Render(da, args).Some?
    ensures Render(da + db, args) == match Render(db, Leftover(da, args))
      case None => None
      case Some(t) => Some(Render(da, args).value + t)
  {
    hide RenderConv;
    if da == [] {
      assert da + db == db;
      if Render(db, args).Some? { assert "" + Render(db, args).value == Render(db, args).value; }
    } else {
      assert (da + db)[1..] == da[1..] + db;
      if da[0].Literal? {
        RenderConcat(da[1..], db, args);
        if Render(db, Leftover(da, args)).Some? {
          Associates([da[0].c], Render(da[1..], args).value, Render(db, Leftover(da, args)).value);
        }
      } else {
        var (text, rest) := RenderConv(da[0], args).value;
        RenderConcat(da[1..], db, rest);
        if Render(db, Leftover(da, args)).Some? {
          Associates(text, Render(da[1..], rest).value, Render(db, Leftover(da, args)).value);
        }
      }
    }
  }

  /** The output of a complete format followed by another is the output of the first, then that of the second
      on the arguments the first left over. */
  lemma Compose(a: string, b: string, args: seq<Arg>)
    requires TextOf(a, args).Some?
    ensures TextOf(a + b, args) == match TextOf(b, Leftover(Parse(a).value, args))
      case None => None
      case Some(t) => Some(TextOf(a, args).value + t)
  {
    hide Parse, Render, Leftover;
    ParseConcat(a, b);
    if Parse(b).Some? { RenderConcat(Parse(a).value, Parse(b).value, args); }
  }

  // ---------------------------------------------------------------- numbers

  function Pow(base: nat, n: nat): nat {
    if n == 0 then 1 else base * Pow(base, n - 1)
  }

  function DigitValue(c: char): nat {
    if '0' <= c <= '9' then c as int - '0' as int
    else if 'a' <= c <= 'f' then c as int - 'a' as int + 10
    else if 'A' <= c <= 'F' then c as int - 'A' as int + 10
    else 0
  }

  /** The number that digits stand for, least significant digit first. */
  function Eval(ds: string, base: nat): nat {
    if ds == "" then 0 else DigitValue(ds[0]) + base * Eval(ds[1..], base)
  }

  lemma DigitCharValue(d: nat, upper: bool)
    requires d < 16
    ensures DigitValue(DigitChar(d, upper)) == d
    ensures DigitChar(d, upper) != 'x' && DigitChar(d, upper) != 'X' && (d < 10 ==> IsDigit(DigitChar(d, upper)))
    ensures DigitChar(d, upper) != '-' && DigitChar(d, upper) != '+' && DigitChar(d, upper) != ' '
  {
  }

  /** The digit loop loses only what lies beyond the room for digits. */
  lemma {:induction false} DigitsEval(value: nat, base: nat, upper: bool, room: nat)
    requires 2 <= base <= 16 && room > 0
    ensures Pow(base, room) > 0
    ensures Eval(DigitsOf(value, base, upper, room), base) == value % Pow(base, room)
    decreases room
  {
    hide DigitChar, DigitValue;
    var d, q := value % base, value / base;
    DigitsStep(value, base, upper, room);
    DigitCharValue(d, upper);
    PowPositive(base, room);
    var ds := DigitsOf(value, base, upper, room);
    EvalStep(DigitChar(d, upper), ds[1..], base);
    assert ds == [DigitChar(d, upper)] + ds[1..];
    if q == 0 || room == 1 {
      assert ds[1..] == "" && Eval("", base) == 0;
      if room == 1 { assert Pow(base, 1) == base * Pow(base, 0); }
      else { PowPositive(base, room - 1); SmallMod(value, base, Pow(base, room - 1)); }
    } else {
      assert ds[1..] == DigitsOf(q, base, upper, room - 1);
      DigitsEval(q, base, upper, room - 1);
      ModSplit(value, base, Pow(base, room - 1));
    }
  }

  lemma EvalStep(c: char, ds: string, base: nat)
    ensures Eval([c] + ds, base) == DigitValue(c) + base * Eval(ds, base)
  {
    assert ([c] + ds)[1..] == ds;
  }

  lemma {:induction false} PowPositive(base: nat, n: nat)
    requires base > 0
    ensures Pow(base, n) > 0
  {
    if n > 0 {
      PowPositive(base, n - 1);
      MulAtLeast(Pow(base, n - 1), base);
    }
  }

  /** value = q * base + d with q below the modulus m: value is below base * m. */
  lemma SmallMod(value: nat, base: nat, m: nat)
    requires base > 0 && m > 0 && value / base == 0
    ensures base * m > 0 && value % (base * m) == value
  {
    MulAtLeast(m, base);
    MulAtLeast(base, m);
    assert value == value / base * base + value % base;
    MulLess(0, m, base);
    QuotientIs(value, base * m, 0, value);
  }

  lemma ModSplit(value: nat, base: nat, m: nat)
    requires base > 0 && m > 0
    ensures base * m > 0 && value % (base * m) == value % base + base * (value / base % m)
  {
    MulAtLeast(m, base);
    var q, d := value / base, value % base;
    var h, r := q / m, q % m;
    assert q == h * m + r;
    assert value == base * q + d;
    assert base * (h * m + r) == h * (base * m) + base * r by { Regroup(base, h, m, r); }
    assert base * r + base <= base * m by { MulLess(r, m, base); }
    QuotientIs(value, base * m, h, base * r + d);
  }

  lemma Regroup(b: int, h: int, m: int, r: int)
    ensures b * (h * m + r) == h * (b * m) + b * r
  {
  }

  // ---------------------------------------------------------------- real bounds

  lemma PowFacts()
    ensures Pow(2, 32) == 0x1_0000_0000
    ensures Pow(8, 32) >= U64 && Pow(10, 32) >= U64 && Pow(16, 32) >= U64
    ensures Pow(8, 22) >= U64 && Pow(10, 20) >= U64 && Pow(16, 16) >= U64
  {
    hide Pow;
    PowersOf2();
    PowersOf8();
    PowersOf10();
    PowersOf16();
    PowGrows(8, 22, 10);
    PowGrows(10, 20, 12);
    PowGrows(16, 16, 16);
  }

  lemma PowGrows(b: nat, m: nat, n: nat)
    requires b > 0
    ensures Pow(b, m + n) >= Pow(b, m)
  {
    hide Pow;
    PowSum(b, m, n);
    PowPositive(b, m);
    PowPositive(b, n);
    MulAtLeast(Pow(b, n), Pow(b, m));
  }

  lemma PowersOf2()
    ensures Pow(2, 32) == 0x1_0000_0000
  {
    assert Pow(2, 8) == 0x100;
    PowSum(2, 8, 8);
    PowSum(2, 16, 16);
  }

  lemma PowersOf8()
    ensures Pow(8, 22) >= U64
  {
    assert Pow(8, 8) == 0x100_0000 && Pow(8, 6) == 0x4_0000;
    PowSum(8, 8, 8);
    PowSum(8, 16, 6);
  }

  lemma PowersOf10()
    ensures Pow(10, 20) >= U64
  {
    assert Pow(10, 8) == 100_000_000 && Pow(10, 4) == 10_000;
    PowSum(10, 8, 8);
    PowSum(10, 16, 4);
  }

  lemma PowersOf16()
    ensures Pow(16, 16) >= U64
  {
    assert Pow(16, 8) == 0x1_0000_0000;
    PowSum(16, 8, 8);
  }

  lemma {:induction false} PowSum(b: nat, m: nat, n: nat)
    ensures Pow(b, m + n) == Pow(b, m) * Pow(b, n)
  {
    if m > 0 {
      PowSum(b, m - 1, n);
      Assoc(b, Pow(b, m - 1), Pow(b, n));
    }
  }

  lemma Assoc(x: nat, y: nat, z: nat)
    ensures x * (y * z) == (x * y) * z
  {
  }

  /** No digit beyond those the value needs: the last one is not zero, and n digits suffice below base^n. */
  lemma {:induction false} DigitsAreFew(value: nat, base: nat, upper: bool, room: nat, n: nat)
    requires 2 <= base <= 16 && 0 < n <= room && value < Pow(base, n)
    ensures |DigitsOf(value, base, upper, room)| <= n
    ensures value > 0 ==> DigitValue(DigitsOf(value, base, upper, room)[|DigitsOf(value, base, upper, room)| - 1]) > 0
    decreases n
  {
    hide DigitChar, DigitValue;
    DigitsStep(value, base, upper, room);
    DigitCharValue(value % base, upper);
    if value / base == 0 {
      QuotientZero(value, base);
    } else {
      DivBelow(value, base, Pow(base, n - 1));
      if n > 1 { DigitsAreFew(value / base, base, upper, room - 1, n - 1); }
    }
  }

  lemma QuotientZero(value: nat, base: nat)
    requires base > 0 && value / base == 0
    ensures value % base == value
  {
  }

  lemma DivBelow(value: nat, base: nat, m: nat)
    requires base > 0 && value < base * m
    ensures value / base < m
  {
    assert value == value / base * base + value % base;
    MulOrder(value / base, m, base);
  }

  lemma MulOrder(q: nat, m: nat, b: nat)
    ensures q >= m ==> q * b >= b * m
  {
    if q >= m { NotNegative(b, q - m); }
  }

  /** The 32-character buffer holds every 64-bit value in bases 8, 10 and 16, with room for sign and prefix, and
      the digits stand for the value; in base 2 they stand for its low 32 bits. */
  lemma DigitRoundTrip(value: u64, base: nat, upper: bool)
    requires base == 2 || base == 8 || base == 10 || base == 16
    ensures var ds := DigitsOf(value, base, upper, BUFFER_SIZE);
            && Eval(ds, base) == (if base == 2 then value % U32 else value)
            && |ds| <= (if base == 2 then 32 else if base == 8 then 22 else if base == 10 then 20 else 16)
            && (base != 2 && value > 0 ==> DigitValue(ds[|ds| - 1]) > 0)
  {
    hide DigitsOf, Eval, Pow, DigitValue;
    PowFacts();
    DigitsEval(value, base, upper, BUFFER_SIZE);
    if base == 8 { DigitsAreFew(value, 8, upper, 32, 22); }
    else if base == 10 { DigitsAreFew(value, 10, upper, 32, 20); }
    else if base == 16 { DigitsAreFew(value, 16, upper, 32, 16); }
  }

  lemma {:induction false} DecimalDigits(value: nat, upper: bool, room: nat)
    requires room > 0
    ensures forall i :: 0 <= i < |DigitsOf(value, 10, upper, room)| ==> IsDigit(DigitsOf(value, 10, upper, room)[i])
    decreases room
  {
    hide DigitChar;
    DigitsStep(value, 10, upper, room);
    DigitCharValue(value % 10, upper);
    if value / 10 != 0 && room > 1 { DecimalDigits(value / 10, upper, room - 1); }
  }

  /** A numeral read from the front is its digits evaluated from the back. */
  lemma {:induction false} DecimalOfReverse(ds: string)
    requires forall i :: 0 <= i < |ds| ==> IsDigit(ds[i])
    ensures forall i :: 0 <= i < |ds| ==> IsDigit(Reverse(ds)[i])
    ensures Decimal(Reverse(ds)) == Eval(ds, 10)
  {
    if ds != "" {
      assert Reverse(ds)[..|ds| - 1] == Reverse(ds[1..]);
      DecimalOfReverse(ds[1..]);
    }
  }

  /** Printing a 64-bit value in decimal and reading it back gives the value. */
  lemma DecimalRoundTrip(value: u64)
    ensures var text := IntegerText('u', value, LongLength, 0, 0, FlagsIn(""));
            && |text| > 0 && (forall i :: 0 <= i < |text| ==> IsDigit(text[i]))
            && Decimal(text) == value
  {
    hide DigitsOf, Eval, Decimal, Reverse, NumberText;
    var ds := DigitsOf(value, 10, false, BUFFER_SIZE);
    PlainNumber(value, false);
    assert "" + Reverse(ds) == Reverse(ds);
    DecimalDigits(value, false, BUFFER_SIZE);
    DecimalOfReverse(ds);
    DigitRoundTrip(value, 10, false);
  }

  /** What `_atoi` reads back, as a width or precision, is the printed value modulo 2^32: exact below 2^32. */
  lemma AtoiRoundTrip(value: u64, after: string)
    requires after != "" ==> !IsDigit(after[0])
    ensures var text := IntegerText('u', value, LongLength, 0, 0, FlagsIn(""));
            ParseSize(text + after) == (Given(value % U32), after)
  {
    hide IntegerText, Decimal;
    DecimalRoundTrip(value);
    var text := IntegerText('u', value, LongLength, 0, 0, FlagsIn(""));
    RunOfDigits(text, after);
    assert (text + after)[..|text|] == text && (text + after)[|text|..] == after;
  }

  lemma {:induction false} RunOfDigits(text: string, after: string)
    requires (forall i :: 0 <= i < |text| ==> IsDigit(text[i])) && (after != "" ==> !IsDigit(after[0]))
    ensures DigitRun(text + after) == |text|
  {
    if text == "" {
      assert text + after == after;
    } else {
      assert (text + after)[1..] == text[1..] + after;
      RunOfDigits(text[1..], after);
    }
  }

  /** Without flags a number is its digits, after a minus sign if negative. */
  lemma PlainNumber(value: u64, negative: bool)
    ensures var ds := DigitsOf(value, 10, false, BUFFER_SIZE);
            NumberText(value, negative, 10, 0, 0, FlagsIn("")) == (if negative then "-" else "") + Reverse(ds)
  {
    hide DigitsOf, Eval;
    DigitRoundTrip(value, 10, false);
    var ds := DigitsOf(value, 10, false, BUFFER_SIZE);
    assert PadZeros(PadZeros(ds, 0), 0) == ds;
    if negative { assert Reverse(ds + ['-']) == "-" + Reverse(ds); }
  }

  /** `%ld` prints a 64-bit integer as a minus sign for a negative one and its magnitude, the least one included. */
  lemma SignedRoundTrip(bits: u64)
    ensures var v := Signed(bits, U64);
            var text := IntegerText('d', bits, LongLength, 0, 0, FlagsIn(""));
            && -0x8000_0000_0000_0000 <= v < 0x8000_0000_0000_0000 && (v - bits) % U64 == 0
            && (v < 0 ==> text == "-" + IntegerText('u', -v, LongLength, 0, 0, FlagsIn("")))
            && (v >= 0 ==> text == IntegerText('u', v, LongLength, 0, 0, FlagsIn("")))
  {
    hide NumberText;
    var v := Signed(bits, U64);
    SignFront(Abs(v));
  }

  lemma SignFront(value: u64)
    ensures NumberText(value, true, 10, 0, 0, FlagsIn("")) == "-" + NumberText(value, false, 10, 0, 0, FlagsIn(""))
  {
    hide NumberText, DigitsOf;
    PlainNumber(value, true);
    PlainNumber(value, false);
    assert "" + Reverse(DigitsOf(value, 10, false, BUFFER_SIZE)) == Reverse(DigitsOf(value, 10, false, BUFFER_SIZE));
  }

  // ---------------------------------------------------------------- fields

  /** The sign character, if any. */
  function SignText(negative: bool, flags: Flags): string {
    if negative then "-" else if flags.plus then "+" else if flags.space then " " else ""
  }

  /** The zeros in front of the digits: none under `-`, else up to the precision and, with `0`, up to the
      width less a sign, in no more than 32 digits. */
  function ZeroCount(digits: nat, negative: bool, prec: nat, width: nat, flags: Flags): (z: nat) {
    var w := if width > 0 && SignText(negative, flags) != "" then width - 1 else width;
    if flags.left then 0
    else Max(0, Min(32, Max(prec, if flags.zeropad then w else 0)) - digits)
  }

  /** A number without `#`: padding spaces, sign, zeros, digits, or the spaces last under `-`.  The sign is
      lost when zeros and digits fill the buffer. */
  lemma NumberLayout(digits: string, negative: bool, base: nat, prec: nat, width: nat, flags: Flags)
    requires |digits| <= 32 && !flags.hash
    ensures var z := ZeroCount(|digits|, negative, prec, width, flags);
            var sign := if z + |digits| < 32 then SignText(negative, flags) else "";
            var body := sign + Repeat('0', z) + Reverse(digits);
            FormatText(digits, negative, base, prec, width, flags) ==
              if flags.left then body + Repeat(' ', width - |body|)
              else if flags.zeropad then body
              else Repeat(' ', width - |body|) + body
  {
    hide Field;
    var w := if SignColumn(negative, width, flags) then width - 1 else width;
    var z := ZeroCount(|digits|, negative, prec, width, flags);
    var sign := if z + |digits| < 32 then SignText(negative, flags) else "";
    ZeroStageIs(digits, negative, prec, width, flags);
    SignStageIs(digits + Repeat('0', z), negative, flags);
    FieldIs(digits, z, sign, w, width, flags);
  }

  lemma ZeroStageIs(digits: string, negative: bool, prec: nat, width: nat, flags: Flags)
    requires |digits| <= 32
    ensures var w := if SignColumn(negative, width, flags) then width - 1 else width;
            ZeroStage(digits, prec, w, flags) == digits + Repeat('0', ZeroCount(|digits|, negative, prec, width, flags))
  {
  }

  lemma SignStageIs(buf: string, negative: bool, flags: Flags)
    ensures SignStage(buf, negative, flags) == buf + if |buf| < 32 then SignText(negative, flags) else ""
  {
    assert buf + "" == buf;
  }

  lemma FieldIs(digits: string, z: nat, sign: string, w: nat, width: nat, flags: Flags)
    requires |sign| <= 1 && (flags.left || !flags.zeropad ==> w == width)
    ensures var body := sign + Repeat('0', z) + Reverse(digits);
            Field(digits + Repeat('0', z) + sign, w, flags) ==
              if flags.left then body + Repeat(' ', width - |body|)
              else if flags.zeropad then body
              else Repeat(' ', width - |body|) + body
  {
    var body := sign + Repeat('0', z) + Reverse(digits);
    assert Reverse(digits + Repeat('0', z) + sign) == body;
    assert "" + body == body && body + "" == body;
  }

  /** An integer conversion without `#` is exactly as long as the larger of its width and its content,
      except for zero padding wider than the buffer. */
  lemma FieldWidthIff(digits: string, negative: bool, base: nat, prec: nat, width: nat, flags: Flags)
    requires |digits| <= 32 && !flags.hash
    ensures (|FormatText(digits, negative, base, prec, width, flags)| ==
             Max(width, |FormatText(digits, negative, base, prec, 0, flags)|))
            <==> (flags.left || !flags.zeropad || width <= 32)
  {
    hide FormatText;
    NumberLayout(digits, negative, base, prec, width, flags);
    NumberLayout(digits, negative, base, prec, 0, flags);
  }

  /** Padding never alters the digits: without `#` they stand unchanged at the end of the text, or in front
      of the padding under `-`. */
  lemma PaddingKeepsDigits(digits: string, negative: bool, base: nat, prec: nat, width: nat, flags: Flags)
    requires |digits| <= 32 && !flags.hash
    ensures var text := FormatText(digits, negative, base, prec, width, flags);
            && |text| >= |digits|
            && (!flags.left ==> text[|text| - |digits|..] == Reverse(digits))
            && (flags.left ==>
                 var k := if |digits| < 32 then |SignText(negative, flags)| else 0;
                 k + |digits| <= |text| && text[k..k + |digits|] == Reverse(digits))
  {
    hide FormatText;
    NumberLayout(digits, negative, base, prec, width, flags);
    var z := ZeroCount(|digits|, negative, prec, width, flags);
    var sign := if z + |digits| < 32 then SignText(negative, flags) else "";
    var text := FormatText(digits, negative, base, prec, width, flags);
    if flags.left {
      assert sign + Repeat('0', 0) + Reverse(digits) == sign + Reverse(digits);
      assert text[|sign|..|sign| + |digits|] == Reverse(digits);
    }
  }

  /** Without a width the body of a number is all there is. */
  lemma NoWidth(digits: string, negative: bool, base: nat, prec: nat, flags: Flags)
    requires |digits| <= 32 && !flags.hash
    ensures var z := ZeroCount(|digits|, negative, prec, 0, flags);
            var sign := if z + |digits| < 32 then SignText(negative, flags) else "";
            FormatText(digits, negative, base, prec, 0, flags) == sign + Repeat('0', z) + Reverse(digits)
  {
    hide FormatText, Reverse, ZeroCount, SignText;
    NumberLayout(digits, negative, base, prec, 0, flags);
    var z := ZeroCount(|digits|, negative, prec, 0, flags);
    var sign := if z + |digits| < 32 then SignText(negative, flags) else "";
    var body := sign + Repeat('0', z) + Reverse(digits);
    assert Repeat(' ', 0 - |body|) == "" && "" + body == body && body + "" == body;
  }

  /** Under `-` the precision is not honoured: zeros it asks for are missing exactly when there would be some,
      which needs room for them. */
  lemma LeftIgnoresPrecisionIff(digits: string, negative: bool, base: nat, prec: nat, flags: Flags)
    requires |digits| <= 32 && !flags.hash
    ensures (FormatText(digits, negative, base, prec, 0, flags.(left := true)) ==
             FormatText(digits, negative, base, prec, 0, flags.(left := false))) <==>
            prec <= |digits| || |digits| == 32
  {
    hide FormatText, Reverse;
    NoWidth(digits, negative, base, prec, flags.(left := true));
    NoWidth(digits, negative, base, prec, flags.(left := false));
    var l := FormatText(digits, negative, base, prec, 0, flags.(left := true));
    var r := FormatText(digits, negative, base, prec, 0, flags.(left := false));
    if prec > |digits| && |digits| < 32 && |l| == |r| {
      assert r[0] == '0' && l[0] == SignText(negative, flags)[0];
    }
  }

  /** A text in a field of spaces. */
  lemma PaddedField(content: string, width: nat, left: bool)
    ensures var text := Padded(content, |content|, width, left);
            && |text| == Max(width, |content|)
            && (if left then text[..|content|] else text[|text| - |content|..]) == content
            && forall i :: 0 <= i < |text| && (if left then i >= |content| else i < |text| - |content|) ==>
                 text[i] == ' '
  {
  }

  lemma StringTextIs(s: string, prec: nat, width: nat, flags: Flags)
    requires |s| < U32 && (!flags.precision ==> prec == 0)
    ensures var content := if flags.precision then s[..Min(|s|, prec)] else s;
            StringText(s, prec, width, flags) == Padded(content, |content|, width, flags.left)
  {
    hide Padded;
  }

  /** Strings and characters: the text or its prefix, in a field exactly as wide as asked. */
  lemma StringField(s: string, prec: nat, width: nat, flags: Flags)
    requires |s| < U32 && (!flags.precision ==> prec == 0)
    ensures var content := if flags.precision then s[..Min(|s|, prec)] else s;
            var text := StringText(s, prec, width, flags);
            && |text| == Max(width, |content|)
            && (if flags.left then text[..|content|] else text[|text| - |content|..]) == content
            && forall i :: 0 <= i < |text| && (if flags.left then i >= |content| else i < |text| - |content|) ==>
                 text[i] == ' '
  {
    hide StringText, Padded;
    StringTextIs(s, prec, width, flags);
    PaddedField(if flags.precision then s[..Min(|s|, prec)] else s, width, flags.left);
  }

  lemma CharField(bits: u64, width: nat, flags: Flags)
    ensures var text := CharText(bits, width, flags);
            && |text| == Max(width, 1)
            && text[if flags.left then 0 else |text| - 1] as int == bits % 0x100
            && forall i :: 0 <= i < |text| && i != (if flags.left then 0 else |text| - 1) ==> text[i] == ' '
  {
  }

  /** `#` cuts one character, in base 16 two, when without a precision the digits with their zero padding just
      fill the width: digits of the value are lost exactly when less than that is padding. */
  lemma HashKeepsDigitsIff(digits: string, base: nat, prec: nat, width: nat, flags: Flags)
    requires base == 2 || base == 8 || base == 16
    requires 0 < |digits| <= (if base == 16 then 16 else 32) && flags.hash && (!flags.precision ==> prec == 0)
    requires forall i :: 0 <= i < |digits| ==>
      digits[i] != (if base == 2 then 'b' else if flags.uppercase then 'X' else 'x')
    requires base == 8 ==> digits[|digits| - 1] != '0'
    ensures var z := ZeroStage(digits, prec, width, flags);
            digits <= HashStage(z, base, prec, width, flags) <==>
            || flags.precision
            || !(width == |digits| || (base == 16 && flags.zeropad && !flags.left && width == |digits| + 1))
  {
    var z := ZeroStage(digits, prec, width, flags);
    var h := HashStage(z, base, prec, width, flags);
    if !flags.precision {
      assert z == if flags.zeropad && !flags.left then PadZeros(digits, Min(width, 32)) else digits;
      var cut := if |z| > 1 && base == 16 then 2 else 1;
      if |z| == width && |z| - cut < |digits| {
        assert h[|z| - cut] ==
               if base == 2 then 'b' else if base == 8 then '0' else if flags.uppercase then 'X' else 'x';
      }
    }
  }

  // ---------------------------------------------------------------- bounded output

  /** With a limit that the buffer has room for, or a text it has room for: the characters that fit below the
      limit, a NUL, and the rest of the buffer as it was. */
  lemma BoundedOutput(initial: seq<char>, text: string, count: nat)
    requires count <= |initial| || |text| < |initial|
    ensures var r := Terminated(initial, text, count);
            var n := Min(|text|, count - 1);
            && |r| == |initial|
            && (count == 0 ==> r == initial)
            && (count > 0 ==> r[..n] == text[..n] && r[n] == '\0' && r[n + 1..] == initial[n + 1..])
  {
  }
}
