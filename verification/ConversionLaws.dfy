/** What single conversions print: the value of the digits for every type, the prefixes of `#`, pointers. */
module ConversionLaws {
  import opened Bits
  import opened Common
  import opened PrintfSpec
  import opened PrintfLaws
  import opened FormatLaws

  // ---------------------------------------------------------------- what numerals stand for

  predicate AreDigits(s: string, base: nat, upper: bool)
    requires base <= 16
  {
    forall i :: 0 <= i < |s| ==>
      s[i] in (if upper then "0123456789ABCDEF"[..base] else "0123456789abcdef"[..base])
  }

  /** A numeral stands for its number, in digits of its base, and does not start with 0 unless it is "0". */
  lemma {:induction false} NumeralIs(value: nat, base: nat, upper: bool)
    requires 2 <= base <= 16
    ensures Value(Numeral(value, base, upper), base) == value && AreDigits(Numeral(value, base, upper), base, upper)
    ensures if value == 0 then Numeral(value, base, upper) == "0" else Numeral(value, base, upper)[0] != '0'
    decreases value
  {
    hide DigitChar, Value, AreDigits, Numeral;
    var q := value / base;
    NumeralStep(value, base, upper);
    DigitIs(value % base, upper);
    DivideAgain(value, base);
    if q > 0 {
      NumeralIs(q, base, upper);
      OneMoreDigit(Numeral(q, base, upper), value % base, base, upper);
    } else {
      NoNumeral(base, upper);
      OneMoreDigit("", value % base, base, upper);
    }
  }

  lemma DivideAgain(value: nat, base: nat)
    requires base >= 2
    ensures value / base * base + value % base == value
    ensures 0 <= value / base <= value && (value > 0 ==> value / base < value)
    ensures value / base == 0 ==> value % base == value
  {
    Printf.DivSmaller(value, base);
  }

  lemma NoNumeral(base: nat, upper: bool)
    requires base <= 16
    ensures Value("", base) == 0 && AreDigits("", base, upper)
  {
  }

  lemma OneMoreDigit(s: string, d: nat, base: nat, upper: bool)
    requires d < base <= 16 && AreDigits(s, base, upper)
    ensures Value(s + [DigitChar(d, upper)], base) == Value(s, base) * base + d
    ensures AreDigits(s + [DigitChar(d, upper)], base, upper) && (d > 0 ==> DigitChar(d, upper) != '0')
  {
    DigitIs(d, upper);
    assert (s + [DigitChar(d, upper)])[..|s|] == s;
    if upper { assert "0123456789ABCDEF"[..base][d] == DigitChar(d, upper); }
    else { assert "0123456789abcdef"[..base][d] == DigitChar(d, upper); }
  }

  /** A numeral has at most n digits exactly when its number is below base to the n. */
  lemma {:induction false} NumeralLength(value: nat, base: nat, upper: bool, n: nat)
    requires 2 <= base <= 16 && n > 0
    ensures |Numeral(value, base, upper)| <= n <==> value < Pow(base, n)
    decreases n
  {
    hide DigitChar, Numeral;
    NumeralStep(value, base, upper);
    PowPositive(base, n - 1);
    QuotientBelow(value, base, Pow(base, n - 1));
    if value / base > 0 && n > 1 { NumeralLength(value / base, base, upper, n - 1); }
  }

  lemma QuotientBelow(value: nat, base: nat, m: nat)
    requires base > 0 && m > 0
    ensures value / base < m <==> value < base * m
  {
    assert value == value / base * base + value % base;
    if value < base * m { DivBelow(value, base, m); }
    if value / base < m { MulLess(value / base, m, base); }
  }

  /** The engine's 32 characters hold the whole numeral of a 64-bit value, except in base 2. */
  lemma NumeralFits(value: u64, base: nat, upper: bool)
    requires base == 8 || base == 10 || base == 16
    ensures LastOf(Numeral(value, base, upper), 32) == Numeral(value, base, upper)
    ensures |Numeral(value, base, upper)| <= if base == 8 then 22 else if base == 10 then 20 else 16
  {
    hide Pow, Numeral;
    PowFacts();
    NumeralLength(value, base, upper, if base == 8 then 22 else if base == 10 then 20 else 16);
  }

  // ---------------------------------------------------------------- single conversions

  lemma OneFormat(w: Written, args: seq<Arg>)
    requires WellWritten(w) && Conversion(w, args).Some?
    ensures TextOf("%" + After(w), args) == Some(Conversion(w, args).value.0)
  {
    hide TextOf, Conversion, WellWritten, After;
    var pieces := [Percent(w)];
    FormatIs(pieces, args);
    assert Format(pieces) == "%" + After(w) by { assert pieces[1..] == []; assert Format([]) == ""; }
    assert Printed(pieces, args) == Some(Conversion(w, args).value.0) by { OnePiece(w, args); }
  }

  lemma OnePiece(w: Written, args: seq<Arg>)
    requires Conversion(w, args).Some?
    ensures Printed([Percent(w)], args) == Some(Conversion(w, args).value.0)
  {
    hide Conversion;
    var (text, rest) := Conversion(w, args).value;
    assert [Percent(w)][1..] == [] && Printed([], rest) == Some("");
    assert text + "" == text;
  }

  /** `%` flags modifier letter, of an integer. */
  lemma IntegerFormat(flags: string, m: string, letter: char, bits: u64)
    requires (forall i :: 0 <= i < |flags| ==> flags[i] in "-+ #0") && IsModifier(m) && letter in "diuxXob"
    ensures TextOf("%" + flags + m + [letter], [Num(bits)]) ==
            Some(Integer(Written(flags, "", None, m, letter), 0, None, '-' in flags, bits))
  {
    hide Integer, TextOf, Value;
    var w := Written(flags, "", None, m, letter);
    NoDigits();
    assert After(w) == flags + m + [letter] && "%" + After(w) == "%" + flags + m + [letter];
    OneFormat(w, [Num(bits)]);
  }

  /** Nothing pads a number without a width and a precision. */
  lemma NoField(digits: string, sign: string, prefix: string)
    requires digits != "" && |sign| <= 1 && |prefix| <= 2
    ensures |digits| < 32 ==> InField(digits, sign, "", None, 0, false, false) == sign + digits
    ensures |digits| + |prefix| < 32 ==> InField(digits, "", prefix, None, 0, false, false) == prefix + digits
  {
    hide Repeat;
    assert Repeat('0', 0 - |digits|) + digits == digits;
    assert digits[0..] == digits;
    assert LastOf("", 32 - |digits|) + digits == digits;
    assert Repeat(' ', 0 - |sign + digits|) + (sign + digits) == sign + digits;
    assert Repeat(' ', 0 - |prefix + digits|) + ("" + (prefix + digits)) == prefix + digits;
  }

  /** `%u`, `%x`, `%X`, `%o` of any type print the numeral of the value, cut to the type. */
  lemma UnsignedIs(m: string, letter: char, bits: u64)
    requires IsModifier(m) && letter in "uxXo"
    ensures TextOf("%" + m + [letter], [Num(bits)]) ==
            Some(Numeral(bits % TypeSpan(m), Base(letter), letter == 'X'))
  {
    hide TextOf, InField, Numeral, LastOf;
    IntegerFormat("", m, letter, bits);
    assert "%" + "" + m + [letter] == "%" + m + [letter];
    SignedIs(bits, m);
    NumeralFits(bits % TypeSpan(m), Base(letter), letter == 'X');
    var n := Numeral(bits % TypeSpan(m), Base(letter), letter == 'X');
    NoField(n, "", "");
    assert "" + n == n;
  }

  /** `%d` and `%i` print a minus sign for a negative value, and its magnitude. */
  lemma SignedNumberIs(m: string, letter: char, bits: u64)
    requires IsModifier(m) && letter in "di"
    ensures var v := SignedOf(bits, m);
            TextOf("%" + m + [letter], [Num(bits)]) ==
            Some((if v < 0 then "-" else "") + Numeral(if v < 0 then -v else v, 10, false))
  {
    hide TextOf, InField, Numeral, LastOf, SignedOf;
    IntegerFormat("", m, letter, bits);
    assert "%" + "" + m + [letter] == "%" + m + [letter];
    SignedIs(bits, m);
    var v := SignedOf(bits, m);
    NumeralFits(if v < 0 then -v else v, 10, false);
    NoField(Numeral(if v < 0 then -v else v, 10, false), if v < 0 then "-" else "", "");
  }

  ghost predicate IsHex(text: Option<string>, value: nat) {
    text.Some? && text.value != "" && Value(text.value, 16) == value && AreDigits(text.value, 16, false)
  }

  lemma HexIs(m: string, bits: u64)
    requires IsModifier(m)
    ensures IsHex(TextOf("%" + m + "x", [Num(bits)]), bits % TypeSpan(m))
  {
    hide TextOf, Numeral, AreDigits, Value;
    UnsignedIs(m, 'x', bits);
    NumeralIs(bits % TypeSpan(m), 16, false);
    assert "%" + m + ['x'] == "%" + m + "x";
  }

  /** The type each length modifier selects, unsigned. */
  lemma UnsignedModifiers(bits: u64)
    ensures IsHex(TextOf("%llx", [Num(bits)]), bits) && IsHex(TextOf("%lx", [Num(bits)]), bits)
    ensures IsHex(TextOf("%jx", [Num(bits)]), bits) && IsHex(TextOf("%zx", [Num(bits)]), bits)
    ensures IsHex(TextOf("%tx", [Num(bits)]), bits)
    ensures IsHex(TextOf("%x", [Num(bits)]), bits % 0x1_0000_0000)
    ensures IsHex(TextOf("%hx", [Num(bits)]), bits % 0x1_0000) && IsHex(TextOf("%hhx", [Num(bits)]), bits % 0x100)
  {
    hide TextOf, IsHex;
    HexIs("ll", bits);
    HexIs("l", bits);
    HexIs("j", bits);
    HexIs("z", bits);
    HexIs("t", bits);
    HexIs("", bits);
    HexIs("h", bits);
    HexIs("hh", bits);
    assert "%" + "ll" + "x" == "%llx" && "%" + "l" + "x" == "%lx" && "%" + "j" + "x" == "%jx";
    assert "%" + "z" + "x" == "%zx" && "%" + "t" + "x" == "%tx" && "%" + "" + "x" == "%x";
    assert "%" + "h" + "x" == "%hx" && "%" + "hh" + "x" == "%hhx";
  }

  /** A text is a decimal number, with a minus sign exactly if negative. */
  ghost predicate IsDecimal(text: Option<string>, value: int) {
    && text.Some? && text.value != ""
    && (value < 0 ==> text.value[0] == '-')
    && var digits := if value < 0 then text.value[1..] else text.value;
       Value(digits, 10) == (if value < 0 then -value else value) && AreDigits(digits, 10, false)
  }

  /** The value of `bits` in two's complement. */
  ghost predicate IsSignedValue(v: int, bits: nat, span: int)
    requires span > 0
  {
    -span <= 2 * v < span && (v - bits) % span == 0
  }

  lemma DecimalIs(m: string, v: int, bits: u64)
    requires IsModifier(m) && IsSignedValue(v, bits, TypeSpan(m))
    ensures IsDecimal(TextOf("%" + m + "d", [Num(bits)]), v)
  {
    hide TextOf, Numeral, AreDigits, Value, TypeSpan, SignedOf;
    SignedUnique(m, v, bits);
    SignedNumberIs(m, 'd', bits);
    NumeralIs(if v < 0 then -v else v, 10, false);
    assert "%" + m + ['d'] == "%" + m + "d";
    var n := Numeral(if v < 0 then -v else v, 10, false);
    assert ("-" + n)[1..] == n && "" + n == n;
  }

  lemma SignedUnique(m: string, v: int, bits: u64)
    requires IsModifier(m) && IsSignedValue(v, bits, TypeSpan(m))
    ensures v == SignedOf(bits, m)
  {
    hide TypeSpan;
    var span := TypeSpan(m);
    SpanIsEven(m);
    SameResidue(v, bits, span);
    if v >= 0 { QuotientIs(v, span, 0, v); } else { QuotientIs(v, span, -1, v + span); }
  }

  lemma SpanIsEven(m: string)
    ensures TypeSpan(m) % 2 == 0
  {
  }

  lemma SameResidue(v: int, bits: nat, span: nat)
    requires span > 0 && (v - bits) % span == 0
    ensures v % span == bits % span
  {
    var k, j, r := (v - bits) / span, bits / span, bits % span;
    assert v - bits == k * span && bits == j * span + r;
    assert v == (k + j) * span + r;
    QuotientIs(v, span, k + j, r);
  }

  /** The type each length modifier selects, signed. */
  lemma SignedModifiers(bits: u64, v: int)
    ensures IsSignedValue(v, bits, 0x1_0000_0000_0000_0000) ==>
            IsDecimal(TextOf("%lld", [Num(bits)]), v) && IsDecimal(TextOf("%ld", [Num(bits)]), v)
    ensures IsSignedValue(v, bits, 0x1_0000_0000) ==> IsDecimal(TextOf("%d", [Num(bits)]), v)
    ensures IsSignedValue(v, bits, 0x1_0000) ==> IsDecimal(TextOf("%hd", [Num(bits)]), v)
    ensures IsSignedValue(v, bits, 0x100) ==> IsDecimal(TextOf("%hhd", [Num(bits)]), v)
  {
    hide TextOf, IsDecimal, IsSignedValue;
    if IsSignedValue(v, bits, TypeSpan("ll")) { DecimalIs("ll", v, bits); DecimalIs("l", v, bits); }
    if IsSignedValue(v, bits, TypeSpan("")) { DecimalIs("", v, bits); }
    if IsSignedValue(v, bits, TypeSpan("h")) { DecimalIs("h", v, bits); }
    if IsSignedValue(v, bits, TypeSpan("hh")) { DecimalIs("hh", v, bits); }
    assert "%" + "ll" + "d" == "%lld" && "%" + "l" + "d" == "%ld" && "%" + "" + "d" == "%d";
    assert "%" + "h" + "d" == "%hd" && "%" + "hh" + "d" == "%hhd";
  }

  /** `#` puts "0x", "0X" or "0" in front of the digits of a value other than 0. */
  lemma HashAddsPrefix(m: string, letter: char, bits: u64)
    requires IsModifier(m) && letter in "xXo"
    ensures var plain := TextOf("%" + m + [letter], [Num(bits)]);
            && plain.Some?
            && TextOf("%#" + m + [letter], [Num(bits)]) ==
               if bits % TypeSpan(m) == 0 then plain
               else Some((if letter == 'x' then "0x" else if letter == 'X' then "0X" else "0") + plain.value)
  {
    hide TextOf, Integer;
    IntegerFormat("", m, letter, bits);
    IntegerFormat("#", m, letter, bits);
    assert "%" + "#" + m + [letter] == "%#" + m + [letter] && "%" + "" + m + [letter] == "%" + m + [letter];
    MarkedInteger(m, letter, bits);
  }

  lemma MarkedInteger(m: string, letter: char, bits: u64)
    requires IsModifier(m) && letter in "xXo"
    ensures var plain := Integer(Written("", "", None, m, letter), 0, None, false, bits);
            Integer(Written("#", "", None, m, letter), 0, None, false, bits) ==
            if bits % TypeSpan(m) == 0 then plain
            else (if letter == 'x' then "0x" else if letter == 'X' then "0X" else "0") + plain
  {
    hide InField, Numeral, LastOf;
    SignedIs(bits, m);
    var n := Numeral(bits % TypeSpan(m), Base(letter), letter == 'X');
    NumeralFits(bits % TypeSpan(m), Base(letter), letter == 'X');
    NoField(n, "", Prefix(Base(letter), letter == 'X'));
    assert "" + n == n;
  }

  /** The same of the text of a number, as the engine makes it. */
  lemma HashedText(letter: char, bits: u64, length: Length)
    requires letter in "xXo"
    ensures var plain := IntegerText(letter, bits, length, 0, 0, FlagsIn(""));
            IntegerText(letter, bits, length, 0, 0, FlagsIn("#")) ==
            if bits % IntSpan(length) == 0 then plain
            else (if letter == 'x' then "0x" else if letter == 'X' then "0X" else "0") + plain
  {
    hide IntegerText, Integer;
    var m := match length case IntLength => "" case CharLength => "hh" case ShortLength => "h" case LongLength => "l";
    IntegerIs(Written("", "", None, m, letter), bits, length, 0, 0, false, FlagsIn(""));
    IntegerIs(Written("#", "", None, m, letter), bits, length, 0, 0, false, FlagsIn("#"));
    MarkedInteger(m, letter, bits);
  }

  /** `%#b` puts "0b" in front exactly when the value has at most 30 digits, as 32 characters hold both. */
  lemma HashInBase2Iff(m: string, bits: u64)
    requires IsModifier(m) && bits % TypeSpan(m) != 0
    ensures var plain, marked := TextOf("%" + m + "b", [Num(bits)]), TextOf("%#" + m + "b", [Num(bits)]);
            && plain.Some? && marked.Some?
            && (marked.value == "0b" + plain.value <==> bits % TypeSpan(m) < 0x4000_0000)
            && (bits % TypeSpan(m) < 0x1_0000_0000 ==> Value(plain.value, 2) == bits % TypeSpan(m))
  {
    hide TextOf, Numeral, Value, AreDigits, InField, LastOf;
    IntegerFormat("", m, 'b', bits);
    IntegerFormat("#", m, 'b', bits);
    assert "%" + "#" + m + ['b'] == "%#" + m + "b" && "%" + "" + m + ['b'] == "%" + m + "b";
    SignedIs(bits, m);
    var v := bits % TypeSpan(m);
    BinaryLength(v);
    NumeralIs(v, 2, false);
    InBuffer(Numeral(v, 2, false));
    assert Prefix(2, false) == "0b";
  }

  lemma BinaryLength(v: nat)
    ensures |Numeral(v, 2, false)| <= 30 <==> v < 0x4000_0000
    ensures |Numeral(v, 2, false)| <= 32 <==> v < 0x1_0000_0000
  {
    hide Numeral, Pow;
    NumeralLength(v, 2, false, 30);
    NumeralLength(v, 2, false, 32);
    PowersOf2();
    PowSum(2, 30, 2);
    PowOfTwo();
  }

  lemma PowOfTwo()
    ensures Pow(2, 2) == 4
  {
    assert Pow(2, 1) == 2 * Pow(2, 0);
  }

  /** What the 32 characters hold of a numeral and its prefix. */
  lemma InBuffer(n: string)
    requires n != ""
    ensures |n| <= 32 ==> LastOf(n, 32) == n
    ensures var plain, marked := InField(LastOf(n, 32), "", "", None, 0, false, false),
                                 InField(LastOf(n, 32), "", "0b", None, 0, false, false);
            plain == LastOf(n, 32) && (marked == "0b" + plain <==> |n| <= 30)
  {
    hide Repeat;
    var d := LastOf(n, 32);
    assert Repeat('0', 0 - |d|) + d == d && d[0..] == d;
    assert LastOf("", 32 - |d|) + d == d;
    assert Repeat(' ', 0 - |d|) + ("" + d) == d;
    var marked := LastOf("0b", 32 - |d|) + d;
    assert Repeat(' ', 0 - |marked|) + ("" + marked) == marked;
  }

  /** A number that fits its 32 characters and is not cut: spaces, sign, prefix, zeros, digits. */
  lemma PartsInOrder(digits: string, sign: string, prefix: string, prec: Option<nat>, width: nat, left: bool,
                     zeros: bool)
    requires |sign| <= 1
    requires var w := if zeros && !left && sign != "" && width > 0 then width - 1 else width;
             var all := WithZeros(digits, prec, w, left, zeros);
             && (prefix == "" || prec.Some? || |all| != w)
             && |sign| + |prefix| + |all| <= 32
    ensures var w := if zeros && !left && sign != "" && width > 0 then width - 1 else width;
            var body := sign + prefix + WithZeros(digits, prec, w, left, zeros);
            InField(digits, sign, prefix, prec, width, left, zeros) ==
            if left then body + Repeat(' ', width - |body|)
            else if zeros then body else Repeat(' ', width - |body|) + body
  {
    hide WithZeros;
    var w := if zeros && !left && sign != "" && width > 0 then width - 1 else width;
    var all := WithZeros(digits, prec, w, left, zeros);
    assert all[0..] == all;
    assert sign + (prefix + all) == sign + prefix + all;
  }

  lemma ZerosCounted(digits: string, negative: bool, prec: nat, width: nat, flags: Flags)
    requires |digits| <= 32 && (!flags.precision ==> prec == 0)
    ensures var w := if SignColumn(negative, width, flags) then width - 1 else width;
            WithZeros(Reverse(digits), if flags.precision then Some(prec) else None, w, flags.left, flags.zeropad) ==
            Repeat('0', ZeroCount(|digits|, negative, prec, width, flags)) + Reverse(digits)
    ensures SignColumn(negative, width, flags) <==>
            flags.zeropad && !flags.left && SignText(negative, flags) != "" && width > 0
    ensures |SignText(negative, flags)| <= 1
  {
    hide Reverse;
  }

  /** A number with `#` that is not cut and fits 32 characters: padding spaces, sign, prefix, zeros, digits, or the
      spaces last under `-`. */
  lemma HashLayout(digits: string, negative: bool, base: nat, prec: nat, width: nat, flags: Flags)
    requires |digits| <= 32 && flags.hash && (!flags.precision ==> prec == 0)
    requires var z, sign := ZeroCount(|digits|, negative, prec, width, flags), SignText(negative, flags);
             var prefix := Prefix(base, flags.uppercase);
             && |sign| + |prefix| + z + |digits| <= 32
             && (flags.precision || z + |digits| != if SignColumn(negative, width, flags) then width - 1 else width)
    ensures var z, sign := ZeroCount(|digits|, negative, prec, width, flags), SignText(negative, flags);
            var body := sign + Prefix(base, flags.uppercase) + Repeat('0', z) + Reverse(digits);
            FormatText(digits, negative, base, prec, width, flags) ==
              if flags.left then body + Repeat(' ', width - |body|)
              else if flags.zeropad then body
              else Repeat(' ', width - |body|) + body
  {
    hide FormatText, InField, Prefix, Reverse, Repeat, ZeroCount, SignText, WithZeros, SignColumn;
    var z, sign := ZeroCount(|digits|, negative, prec, width, flags), SignText(negative, flags);
    var prefix := Prefix(base, flags.uppercase);
    var given := if flags.precision then Some(prec) else None;
    var w := if SignColumn(negative, width, flags) then width - 1 else width;
    FormatIsField(digits, negative, base, prec, width, flags);
    ZerosCounted(digits, negative, prec, width, flags);
    PartsInOrder(Reverse(digits), sign, prefix, given, width, flags.left, flags.zeropad);
    assert sign + prefix + (Repeat('0', z) + Reverse(digits)) == sign + prefix + Repeat('0', z) + Reverse(digits);
  }

  /** `%p` prints 16 digits, in upper case, that stand for the pointer. */
  lemma PointerFormat(bits: u64)
    ensures var text := TextOf("%p", [Num(bits)]);
            && text.Some? && |text.value| == 16
            && AreDigits(text.value, 16, true) && Value(text.value, 16) == bits
  {
    hide TextOf, Numeral, LastOf, Value, AreDigits, InField, Repeat;
    var w := Written("", "", None, "", 'p');
    NoDigits();
    assert "%" + After(w) == "%p";
    OneFormat(w, [Num(bits)]);
    var n := Numeral(bits, 16, true);
    NumeralFits(bits, 16, true);
    NumeralIs(bits, 16, true);
    SixteenWide(n);
    ZerosInFront(16 - |n|, n);
  }

  lemma SixteenWide(n: string)
    requires n != "" && |n| <= 16
    ensures InField(n, "", "", None, 16, false, true) == Repeat('0', 16 - |n|) + n
  {
    hide Repeat;
    var all := Repeat('0', 16 - |n|) + n;
    assert LastOf("", 16) + all[0..] == all && "" + all == all;
  }

  lemma {:induction false} ZerosInFront(k: nat, s: string)
    requires AreDigits(s, 16, true)
    ensures AreDigits(Repeat('0', k) + s, 16, true) && Value(Repeat('0', k) + s, 16) == Value(s, 16)
    decreases k
  {
    hide Value, AreDigits;
    if k == 0 {
      assert Repeat('0', 0) + s == s;
    } else {
      ZeroInFront(s);
      ZerosInFront(k - 1, "0" + s);
      assert Repeat('0', k - 1) + ("0" + s) == Repeat('0', k) + s;
    }
  }

  lemma {:induction false} ZeroInFront(s: string)
    requires AreDigits(s, 16, true)
    ensures AreDigits("0" + s, 16, true) && Value("0" + s, 16) == Value(s, 16)
    decreases |s|
  {
    assert "0123456789ABCDEF"[..16][0] == '0';
    if s == "" {
      assert "0" + s == "0" && "0"[..0] == "";
    } else {
      ZeroInFront(s[..|s| - 1]);
      assert ("0" + s)[..|s|] == "0" + s[..|s| - 1];
    }
  }
}
