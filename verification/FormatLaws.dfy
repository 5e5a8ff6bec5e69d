/** What a format prints, character by character of the format: a reference for a whole conversion as it is
    written, which shares no parsing, digit or padding code with the engine, and the engine's agreement with it. */
module FormatLaws {
  import opened Bits
  import opened Common
  import opened PrintfSpec
  import opened PrintfLaws

  // ---------------------------------------------------------------- conversions as they are written

  /** `%` flags width `.` precision modifier letter.  A size is a numeral, `*`, or nothing. */
  datatype Written = Written(flags: string, width: string, prec: Option<string>, modifier: string, letter: char)

  predicate IsModifier(m: string) {
    m == "" || m == "hh" || m == "h" || m == "l" || m == "ll" || m == "j" || m == "z" || m == "t"
  }

  predicate IsSize(s: string) {
    s == "*" || forall i :: 0 <= i < |s| ==> '0' <= s[i] <= '9'
  }

  /** The letter is none that could belong to what stands before it, and asks for no floating-point number. */
  predicate IsLetter(c: char) {
    !('0' <= c <= '9') && c !in "-+ #*.hljztfFeEgG"
  }

  predicate WellWritten(w: Written) {
    && (forall i :: 0 <= i < |w.flags| ==> w.flags[i] in "-+ #0")
    && IsSize(w.width) && (w.width != "" ==> w.width[0] != '0')
    && (w.prec.Some? ==> IsSize(w.prec.value))
    && IsModifier(w.modifier) && IsLetter(w.letter)
  }

  /** What follows the percent sign. */
  function After(w: Written): string {
    w.flags + (w.width + ((if w.prec.Some? then "." + w.prec.value else "") + (w.modifier + [w.letter])))
  }

  // ---------------------------------------------------------------- numbers

  /** The numeral of a number, most significant digit first. */
  function Numeral(value: nat, base: nat, upper: bool): (s: string)
    requires 2 <= base <= 16
    ensures s != ""
    decreases value
  {
    var digit := if upper then "0123456789ABCDEF"[value % base] else "0123456789abcdef"[value % base];
    if value < base then [digit]
    else
      Smaller(value, base);
      Numeral(value / base, base, upper) + [digit]
  }

  lemma Smaller(value: nat, base: nat)
    requires 2 <= base <= value
    ensures 0 <= value / base < value && value / base > 0
  {
    Printf.DivSmaller(value, base);
    assert value == value / base * base + value % base;
  }

  function LastOf(s: string, n: int): (r: string)
    ensures |r| == if n < 0 then 0 else Min(|s|, n)
  {
    if n <= 0 then "" else if |s| <= n then s else s[|s| - n..]
  }

  /** How many values the type of a modifier has. */
  function TypeSpan(m: string): (n: nat)
    ensures n > 0
  {
    if m == "hh" then 0x100
    else if m == "h" then 0x1_0000
    else if m == "" then 0x1_0000_0000
    else 0x1_0000_0000_0000_0000
  }

  /** An argument read as a signed or an unsigned number of that type. */
  function SignedOf(bits: nat, m: string): int {
    if bits % TypeSpan(m) < TypeSpan(m) / 2 then bits % TypeSpan(m) else bits % TypeSpan(m) - TypeSpan(m)
  }

  function Base(letter: char): nat {
    if letter == 'x' || letter == 'X' then 16 else if letter == 'o' then 8 else if letter == 'b' then 2 else 10
  }

  function Prefix(base: nat, upper: bool): string {
    if base == 16 then if upper then "0X" else "0x" else if base == 2 then "0b" else "0"
  }

  /** Zeros in front of the digits, up to the precision and, when asked for, a width, in no more than 32
      characters. */
  function WithZeros(digits: string, prec: Option<nat>, width: nat, left: bool, zeros: bool): string {
    var least := Max(if prec.Some? then prec.value else 0, if zeros then width else 0);
    Repeat('0', if left then 0 else Min(least, 32) - |digits|) + digits
  }

  /** A prefix in front, as far as 32 characters go.  It takes the place of the first two characters, with "0b" and
      "0" of the first, when the characters just fill the width and there is no precision. */
  function WithPrefix(number: string, prefix: string, hasPrec: bool, width: nat): string {
    var taken := if prefix == "" || hasPrec || |number| != width then 0
                 else Min(|number|, if prefix == "0x" || prefix == "0X" then 2 else 1);
    LastOf(prefix, 32 - (|number| - taken)) + number[taken..]
  }

  /** A number in its field.  The sign has to fit 32 characters, too; there is a column for it when zeros fill the
      width. */
  function InField(digits: string, sign: string, prefix: string, prec: Option<nat>, width: nat, left: bool, zeros: bool)
    : string
  {
    var w := if zeros && !left && sign != "" && width > 0 then width - 1 else width;
    var number := WithPrefix(WithZeros(digits, prec, w, left, zeros), prefix, prec.Some?, w);
    var body := (if |number| < 32 then sign else "") + number;
    if left then body + Repeat(' ', width - |body|)
    else if zeros then body
    else Repeat(' ', width - |body|) + body
  }

  lemma {:induction false} DigitsAreNumeral(value: nat, base: nat, upper: bool, room: nat)
    requires 2 <= base <= 16 && room > 0
    ensures Reverse(DigitsOf(value, base, upper, room)) == LastOf(Numeral(value, base, upper), room)
    decreases room
  {
    hide DigitChar, DigitsOf, Numeral, Reverse, LastOf;
    Printf.DigitsStep(value, base, upper, room);
    NumeralStep(value, base, upper);
    var rest := if value / base == 0 || room == 1 then "" else DigitsOf(value / base, base, upper, room - 1);
    var front := if value / base == 0 then "" else Numeral(value / base, base, upper);
    var c := DigitChar(value % base, upper);
    ReverseStep(c, rest);
    LastOfStep(front, c, room);
    if value / base != 0 && room > 1 { DigitsAreNumeral(value / base, base, upper, room - 1); }
  }

  lemma NumeralStep(value: nat, base: nat, upper: bool)
    requires 2 <= base <= 16
    ensures 0 <= value / base && value % base < 16
    ensures Numeral(value, base, upper) ==
            (if value / base == 0 then "" else Numeral(value / base, base, upper)) + [DigitChar(value % base, upper)]
  {
    hide DigitChar;
    DigitIs(value % base, upper);
    if value >= base { Smaller(value, base); } else { SmallQuotient(value, base); }
  }

  lemma ReverseStep(c: char, rest: string)
    ensures Reverse([c] + rest) == Reverse(rest) + [c] && Reverse("") == ""
  {
  }

  lemma LastOfStep(s: string, c: char, n: nat)
    requires n > 0
    ensures LastOf(s + [c], n) == LastOf(s, n - 1) + [c]
    ensures LastOf("", n - 1) == "" && (n == 1 ==> LastOf(s, n - 1) == "")
  {
  }

  lemma SmallQuotient(value: nat, base: nat)
    requires value < base
    ensures value / base == 0
  {
  }

  lemma DigitIs(d: nat, upper: bool)
    requires d < 16
    ensures DigitChar(d, upper) == if upper then "0123456789ABCDEF"[d] else "0123456789abcdef"[d]
  {
  }

  // ---------------------------------------------------------------- the stages of a number

  /** How many characters a prefix overwrites. */
  function CutOf(buf: string, base: nat, width: nat, flags: Flags): (cut: nat)
    ensures cut <= |buf|
  {
    if flags.precision || buf == "" || |buf| != width then 0 else if |buf| > 1 && base == 16 then 2 else 1
  }

  lemma PrefixIs(buf: string, base: nat, prec: nat, width: nat, flags: Flags)
    requires |buf| <= 32 && (!flags.precision ==> prec == 0)
    ensures Reverse(HashStage(buf, base, prec, width, flags)) ==
            WithPrefix(Reverse(buf), if flags.hash then Prefix(base, flags.uppercase) else "", flags.precision, width)
  {
    hide Reverse, PushFront, LastOf, HashStage, WithPrefix, CutOf, Prefix;
    if flags.hash {
      var cut := CutOf(buf, base, width, flags);
      var b := buf[..|buf| - cut];
      ReverseFront(buf, cut);
      HashUnfolds(buf, base, prec, width, flags);
      PrefixUnfolds(buf, base, width, flags);
      PushPrefix(b, base, flags.uppercase);
    } else {
      NoPrefix(buf, base, prec, width, flags);
    }
  }

  lemma NoPrefix(buf: string, base: nat, prec: nat, width: nat, flags: Flags)
    requires !flags.hash
    ensures HashStage(buf, base, prec, width, flags) == buf
    ensures WithPrefix(Reverse(buf), "", flags.precision, width) == Reverse(buf)
  {
    hide Reverse;
    assert Reverse(buf)[0..] == Reverse(buf) && LastOf("", 32 - |buf|) == "";
    assert "" + Reverse(buf) == Reverse(buf);
  }

  lemma HashUnfolds(buf: string, base: nat, prec: nat, width: nat, flags: Flags)
    requires flags.hash && (!flags.precision ==> prec == 0)
    ensures HashStage(buf, base, prec, width, flags) ==
            Pushed(buf[..|buf| - CutOf(buf, base, width, flags)], base, flags.uppercase)
  {
    hide PushFront;
  }

  lemma PrefixUnfolds(buf: string, base: nat, width: nat, flags: Flags)
    ensures var cut := CutOf(buf, base, width, flags);
            WithPrefix(Reverse(buf), Prefix(base, flags.uppercase), flags.precision, width) ==
            LastOf(Prefix(base, flags.uppercase), 32 - (|buf| - cut)) + Reverse(buf)[cut..]
  {
    hide Reverse, LastOf;
  }

  /** The characters of a prefix, pushed one by one. */
  function Pushed(b: string, base: nat, upper: bool): string {
    PushFront(if base == 16 then PushFront(b, if upper then 'X' else 'x')
              else if base == 2 then PushFront(b, 'b') else b, '0')
  }

  lemma PushPrefix(b: string, base: nat, upper: bool)
    requires |b| <= 32
    ensures Reverse(Pushed(b, base, upper)) == LastOf(Prefix(base, upper), 32 - |b|) + Reverse(b)
  {
    hide Reverse, PushFront, LastOf;
    if base == 16 {
      PushTwo(b, if upper then 'X' else 'x');
      assert ['0', if upper then 'X' else 'x'] == Prefix(base, upper);
    } else if base == 2 {
      PushTwo(b, 'b');
    } else {
      PushZero(b);
    }
  }

  lemma ReverseFront(buf: string, cut: nat)
    requires cut <= |buf|
    ensures Reverse(buf[..|buf| - cut]) == Reverse(buf)[cut..]
  {
  }

  lemma PushZero(b: string)
    requires |b| <= 32
    ensures Reverse(PushFront(b, '0')) == LastOf("0", 32 - |b|) + Reverse(b)
  {
  }

  lemma PushTwo(b: string, c: char)
    requires |b| <= 32
    ensures Reverse(PushFront(PushFront(b, c), '0')) == LastOf(['0', c], 32 - |b|) + Reverse(b)
  {
  }

  lemma SignIs(buf: string, negative: bool, flags: Flags)
    ensures Reverse(SignStage(buf, negative, flags)) ==
            (if |buf| < 32 then SignText(negative, flags) else "") + Reverse(buf)
  {
  }

  lemma ZerosAre(digits: string, prec: nat, width: nat, flags: Flags)
    requires |digits| <= 32 && (!flags.precision ==> prec == 0)
    ensures Reverse(ZeroStage(digits, prec, width, flags)) ==
            WithZeros(Reverse(digits), if flags.precision then Some(prec) else None, width, flags.left, flags.zeropad)
    ensures |ZeroStage(digits, prec, width, flags)| <= 32
  {
  }

  lemma FieldIs(buf: string, w: nat, width: nat, flags: Flags)
    requires flags.left || !flags.zeropad ==> w == width
    ensures var body := Reverse(buf);
            Field(buf, w, flags) ==
              if flags.left then body + Repeat(' ', width - |body|)
              else if flags.zeropad then body
              else Repeat(' ', width - |body|) + body
  {
    var body := Reverse(buf);
    assert "" + body == body && body + "" == body;
  }

  /** `_ntoa_format` puts digits into their field, whatever the flags. */
  lemma FormatIsField(digits: string, negative: bool, base: nat, prec: nat, width: nat, flags: Flags)
    requires |digits| <= 32 && (!flags.precision ==> prec == 0)
    ensures FormatText(digits, negative, base, prec, width, flags) ==
            InField(Reverse(digits), SignText(negative, flags),
                    if flags.hash then Prefix(base, flags.uppercase) else "",
                    if flags.precision then Some(prec) else None, width, flags.left, flags.zeropad)
  {
    hide ZeroStage, HashStage, SignStage, Field, Prefix, Repeat, Reverse, WithZeros, WithPrefix;
    var w := if SignColumn(negative, width, flags) then width - 1 else width;
    var z := ZeroStage(digits, prec, w, flags);
    var h := HashStage(z, base, prec, w, flags);
    ZerosAre(digits, prec, w, flags);
    PrefixIs(z, base, prec, w, flags);
    SignIs(h, negative, flags);
    FieldIs(SignStage(h, negative, flags), w, width, flags);
    assert |Reverse(h)| == |h|;
  }

  // ---------------------------------------------------------------- the reference

  /** The number a numeral stands for. */
  function Value(s: string, base: nat): nat {
    if s == "" then 0 else Value(s[..|s| - 1], base) * base + DigitValue(s[|s| - 1])
  }

  /** A width or a precision, which `*` takes from an `int` argument. */
  function Size(s: string, args: seq<Arg>): Option<(int, seq<Arg>)> {
    if s != "*" then Some((Value(s, 10) % 0x1_0000_0000, args))
    else if args != [] && args[0].Num? then Some((SignedOf(args[0].bits, ""), args[1..]))
    else None
  }

  /** The padding is counted in an `unsigned int`. */
  function InSpaces(text: string, width: nat, left: bool): string {
    var pad := Repeat(' ', width - |text| % 0x1_0000_0000);
    if left then text + pad else pad + text
  }

  function SignIn(flags: string, negative: bool): string {
    if negative then "-" else if '+' in flags then "+" else if ' ' in flags then " " else ""
  }

  function Integer(w: Written, width: nat, prec: Option<nat>, left: bool, bits: u64): string {
    var signed, base, upper := w.letter == 'd' || w.letter == 'i', Base(w.letter), w.letter == 'X';
    var v: int := if signed then SignedOf(bits, w.modifier) else bits % TypeSpan(w.modifier);
    var size: nat := if v < 0 then -v else v;
    InField(if size == 0 && prec.Some? then "" else LastOf(Numeral(size, base, upper), 32),
            if signed then SignIn(w.flags, v < 0) else "",
            if '#' in w.flags && base != 10 && size != 0 then Prefix(base, upper) else "",
            prec, width, left, '0' in w.flags && prec.None?)
  }

  function Pointer(w: Written, prec: Option<nat>, left: bool, bits: u64): string {
    InField(if bits == 0 && prec.Some? then "" else LastOf(Numeral(bits, 16, true), 32),
            SignIn(w.flags, false),
            if '#' in w.flags && bits != 0 then "0X" else "",
            prec, 16, left, true)
  }

  /** The text of a conversion once its sizes are known, and the arguments after it. */
  function Letter(w: Written, width: nat, prec: Option<nat>, left: bool, args: seq<Arg>): Option<(string, seq<Arg>)> {
    if w.letter in "diuxXobcp" then
      if args == [] || args[0].Str? then None
      else
        var bits := args[0].bits;
        Some((if w.letter == 'c' then InSpaces([(bits % 0x100) as char], width, left)
              else if w.letter == 'p' then Pointer(w, prec, left, bits)
              else Integer(w, width, prec, left, bits), args[1..]))
    else if w.letter == 's' then
      if args == [] || args[0].Num? then None
      else
        var s := args[0].text;
        Some((InSpaces(if prec.Some? && prec.value < |s| then s[..prec.value] else s, width, left), args[1..]))
    else Some(([w.letter], args))
  }

  function Conversion(w: Written, args: seq<Arg>): Option<(string, seq<Arg>)> {
    match Size(w.width, args)
    case None => None
    case Some((width, args1)) =>
      match Size(if w.prec.Some? then w.prec.value else "", args1)
      case None => None
      case Some((prec, args2)) =>
        Letter(w, if width < 0 then -width else width, if w.prec.Some? then Some(Max(prec, 0)) else None,
               '-' in w.flags || width < 0, args2)
  }

  /** A format is text without percent signs, in which conversions stand. */
  datatype Piece = Plain(text: string) | Percent(w: Written)

  predicate WellFormed(pieces: seq<Piece>) {
    forall i :: 0 <= i < |pieces| ==>
      match pieces[i] case Plain(text) => '%' !in text case Percent(w) => WellWritten(w)
  }

  function Format(pieces: seq<Piece>): string {
    if pieces == [] then ""
    else (match pieces[0] case Plain(text) => text case Percent(w) => "%" + After(w)) + Format(pieces[1..])
  }

  /** A text, and then another if there is one. */
  function Then(text: string, more: Option<string>): Option<string> {
    match more
    case None => None
    case Some(m) => Some(text + m)
  }

  function Printed(pieces: seq<Piece>, args: seq<Arg>): Option<string> {
    if pieces == [] then Some("")
    else match pieces[0]
      case Plain(text) => Then(text, Printed(pieces[1..], args))
      case Percent(w) =>
        match Conversion(w, args)
        case None => None
        case Some(printed) => Then(printed.0, Printed(pieces[1..], printed.1))
  }

  // ---------------------------------------------------------------- reading a conversion

  lemma {:induction false} RunOfFlags(flags: string, tail: string)
    requires (forall i :: 0 <= i < |flags| ==> flags[i] in "-+ #0") && tail != "" && !IsFlag(tail[0])
    ensures FlagRun(flags + tail) == |flags|
  {
    if flags == "" {
      assert flags + tail == tail;
    } else {
      assert (flags + tail)[1..] == flags[1..] + tail;
      RunOfFlags(flags[1..], tail);
    }
  }

  lemma {:induction false} DecimalIsValue(s: string)
    requires forall i :: 0 <= i < |s| ==> IsDigit(s[i])
    ensures Decimal(s) == Value(s, 10)
  {
    if s != "" { DecimalIsValue(s[..|s| - 1]); }
  }

  /** The size the parser makes of a size as it is written. */
  function ReadSize(s: string): PrintfSpec.Size {
    if s == "*" then Star else Given(Value(s, 10) % U32)
  }

  lemma SizeIsRead(s: string, tail: string)
    requires IsSize(s) && tail != "" && !IsDigit(tail[0]) && tail[0] != '*'
    ensures ParseSize(s + tail) == (ReadSize(s), tail)
  {
    hide Value, Decimal;
    if s == "" {
      assert s + tail == tail;
      assert Value("", 10) == 0 by { NoDigits(); }
    } else if s != "*" {
      RunOfDigits(s, tail);
      assert (s + tail)[..|s|] == s && (s + tail)[|s|..] == tail;
      DecimalIsValue(s);
    }
  }

  lemma NoDigits()
    ensures Value("", 10) == 0
  {
  }

  lemma ModifierIsRead(m: string, c: char, rest: string)
    requires IsModifier(m) && IsLetter(c)
    ensures ParseLength(m + [c] + rest).1 == [c] + rest
    ensures IntSpan(ParseLength(m + [c] + rest).0) == TypeSpan(m)
  {
    var f := m + [c] + rest;
    if |m| == 0 { assert f == [c] + rest; }
    else if |m| == 1 { assert f[1..] == [c] + rest; }
    else { assert f[2..] == [c] + rest; }
  }

  /** The directive the parser makes of a conversion. */
  lemma ConversionIsRead(w: Written, rest: string) returns (d: Directive)
    requires WellWritten(w)
    ensures ParseConv(After(w) + rest) == Some((d, rest)) && d.Conv?
    ensures d.flags == Flags('0' in w.flags, '-' in w.flags, '+' in w.flags, ' ' in w.flags, '#' in w.flags, false,
                             w.prec.Some?)
    ensures d.width == ReadSize(w.width) && d.prec == ReadSize(if w.prec.Some? then w.prec.value else "")
    ensures IntSpan(d.length) == TypeSpan(w.modifier) && d.spec == w.letter
  {
    hide ParseSize, ParseLength, FlagsIn, FlagRun, ReadSize, IntSpan, IsSize, WellWritten, IsModifier, IsLetter, IsFlag,
         TypeSpan, ParseConv;
    var letter := w.modifier + [w.letter] + rest;
    var point := (if w.prec.Some? then "." + w.prec.value else "") + letter;
    var sizes := w.width + point;
    var f := After(w) + rest;
    assert f == w.flags + sizes;
    PartsAre(w);
    Starts(w, rest);
    RunOfFlags(w.flags, sizes);
    assert f[..|w.flags|] == w.flags && f[|w.flags|..] == sizes;
    SizeIsRead(w.width, point);
    if w.prec.Some? {
      SizeIsRead(w.prec.value, letter);
      assert point[1..] == w.prec.value + letter;
    } else {
      assert point == letter;
      NothingRead();
    }
    ModifierIsRead(w.modifier, w.letter, rest);
    FlagsAre(w.flags);
    assert ([w.letter] + rest)[1..] == rest;
    NoFloat(w.letter);
    var size := ReadSize(if w.prec.Some? then w.prec.value else "");
    ParsedParts(f, sizes, ReadSize(w.width), point, w.prec.Some?, size, letter, [w.letter] + rest);
    d := ParseConv(f).value.0;
  }

  lemma NoFloat(c: char)
    requires IsLetter(c)
    ensures !IsFloat(c)
  {
  }

  /** The parser, part by part. */
  lemma ParsedParts(f: string, sizes: string, width: PrintfSpec.Size, point: string, hasPrec: bool,
                    prec: PrintfSpec.Size, letter: string, end: string)
    requires FlagRun(f) <= |f| && f[FlagRun(f)..] == sizes && ParseSize(sizes) == (width, point)
    requires point != "" && (hasPrec <==> point[0] == '.')
    requires if hasPrec then ParseSize(point[1..]) == (prec, letter) else prec == Given(0) && letter == point
    requires ParseLength(letter).1 == end && end != "" && !IsFloat(end[0])
    ensures ParseConv(f) == Some((Conv(FlagsIn(f[..FlagRun(f)]).(precision := hasPrec), width, prec,
                                       ParseLength(letter).0, end[0]), end[1..]))
  {
    hide ParseSize, ParseLength, FlagsIn, FlagRun, IsFloat;
  }

  lemma NothingRead()
    ensures ReadSize("") == Given(0)
  {
  }

  lemma FlagsAre(run: string)
    ensures FlagsIn(run) == Flags('0' in run, '-' in run, '+' in run, ' ' in run, '#' in run, false, false)
  {
  }

  lemma PartsAre(w: Written)
    requires WellWritten(w)
    ensures (forall i :: 0 <= i < |w.flags| ==> w.flags[i] in "-+ #0") && IsModifier(w.modifier) && IsLetter(w.letter)
    ensures IsSize(w.width) && IsSize(if w.prec.Some? then w.prec.value else "")
  {
  }

  /** What each part of a conversion is followed by. */
  lemma Starts(w: Written, rest: string)
    requires WellWritten(w)
    ensures var letter := w.modifier + [w.letter] + rest;
            var point := (if w.prec.Some? then "." + w.prec.value else "") + letter;
            var sizes := w.width + point;
            && letter[0] != '.' && !IsDigit(letter[0]) && letter[0] != '*'
            && !IsDigit(point[0]) && point[0] != '*' && (point[0] == '.' <==> w.prec.Some?)
            && !IsFlag(sizes[0]) && IsSize(w.width) && (w.prec.Some? ==> IsSize(w.prec.value))
  {
    assert w.modifier == "" || w.modifier[0] == 'h' || w.modifier[0] == 'l' || w.modifier[0] == 'j' ||
           w.modifier[0] == 'z' || w.modifier[0] == 't';
  }

  // ---------------------------------------------------------------- printing a conversion

  lemma SignedIs(bits: u64, m: string)
    requires IsModifier(m)
    ensures Signed(bits, TypeSpan(m)) == SignedOf(bits, m)
    ensures -0x8000_0000_0000_0000 <= SignedOf(bits, m) < 0x8000_0000_0000_0000
    ensures bits % TypeSpan(m) < 0x1_0000_0000_0000_0000
  {
  }

  /** The digits of a number in the engine's buffer. */
  lemma BufferIs(value: u64, base: nat, flags: Flags)
    requires base == 2 || base == 8 || base == 10 || base == 16
    ensures var buffer := BufferDigits(value, base, flags);
            && |buffer| <= 32
            && Reverse(buffer) == if value == 0 && flags.precision then ""
                                  else LastOf(Numeral(value, base, flags.uppercase), 32)
  {
    hide DigitsOf, Numeral, Reverse, LastOf;
    ReverseStep('0', "");
    DigitsAreNumeral(value, base, flags.uppercase, 32);
  }

  lemma NumberIs(value: u64, negative: bool, base: nat, prec: nat, width: nat, flags: Flags)
    requires (base == 2 || base == 8 || base == 10 || base == 16) && (!flags.precision ==> prec == 0)
    ensures NumberText(value, negative, base, prec, width, flags) ==
            InField(if value == 0 && flags.precision then "" else LastOf(Numeral(value, base, flags.uppercase), 32),
                    SignText(negative, flags),
                    if flags.hash && value != 0 then Prefix(base, flags.uppercase) else "",
                    if flags.precision then Some(prec) else None, width, flags.left, flags.zeropad)
  {
    hide BufferDigits, FormatText, InField, Numeral, LastOf, Prefix, Reverse, SignText;
    BufferIs(value, base, flags);
    var fl := if value == 0 then flags.(hash := false) else flags;
    SignOnly(negative, flags, fl);
    FormatIsField(BufferDigits(value, base, flags), negative, base, prec, width, fl);
  }

  lemma SignOnly(negative: bool, flags: Flags, fl: Flags)
    requires fl.plus == flags.plus && fl.space == flags.space
    ensures SignText(negative, fl) == SignText(negative, flags)
  {
  }

  /** The flags and sizes the engine works with are those of the conversion. */
  predicate Reads(w: Written, flags: Flags, prec: nat, left: bool) {
    && flags == Flags('0' in w.flags, left, '+' in w.flags, ' ' in w.flags, '#' in w.flags, false, w.prec.Some?)
    && (w.prec.None? ==> prec == 0)
  }

  lemma IntegerIs(w: Written, bits: u64, length: Length, prec: nat, width: nat, left: bool, flags: Flags)
    requires IsModifier(w.modifier) && w.letter in "diuxXob" && IntSpan(length) == TypeSpan(w.modifier)
    requires Reads(w, flags, prec, left)
    ensures IntegerText(w.letter, bits, length, prec, width, flags) ==
            Integer(w, width, if w.prec.Some? then Some(prec) else None, left, bits)
  {
    hide NumberText, InField, Numeral, LastOf, Prefix, TypeSpan, SignedOf, Signed;
    SignedIs(bits, w.modifier);
    var fl := IntegerFlags(w.letter, flags);
    if IsSigned(w.letter) {
      var v := Signed(bits, TypeSpan(w.modifier));
      NumberIs(Abs(v), v < 0, 10, prec, width, fl);
    } else {
      NumberIs(bits % TypeSpan(w.modifier), false, BaseOf(w.letter), prec, width, fl);
    }
  }

  lemma PointerIs(w: Written, bits: u64, prec: nat, left: bool, flags: Flags)
    requires Reads(w, flags, prec, left)
    ensures PointerText(bits, prec, flags) == Pointer(w, if w.prec.Some? then Some(prec) else None, left, bits)
  {
    hide NumberText, InField, Numeral, LastOf;
    NumberIs(bits, false, 16, prec, 16, flags.(zeropad := true, uppercase := true));
  }

  lemma StringIs(s: string, prec: nat, width: nat, flags: Flags)
    requires prec < 0x1_0000_0000 && (!flags.precision ==> prec == 0)
    ensures StringText(s, prec, width, flags) ==
            InSpaces(if flags.precision && prec < |s| then s[..prec] else s, width, flags.left)
  {
    assert s[..|s|] == s;
  }

  lemma LetterIs(w: Written, length: Length, prec: nat, width: nat, left: bool, flags: Flags, args: seq<Arg>)
    requires WellWritten(w) && IntSpan(length) == TypeSpan(w.modifier) && Reads(w, flags, prec, left)
    requires prec < 0x1_0000_0000
    ensures ConvText(w.letter, flags, length, width, prec, args) ==
            Letter(w, width, if w.prec.Some? then Some(prec) else None, left, args)
  {
    hide IntegerText, Integer, PointerText, Pointer, StringText, InSpaces, WellWritten;
    LetterKnown(w);
    if w.letter in "diuxXob" {
      if args != [] && args[0].Num? { IntegerIs(w, args[0].bits, length, prec, width, left, flags); }
    } else if w.letter == 'p' {
      if args != [] && args[0].Num? { PointerIs(w, args[0].bits, prec, left, flags); }
    } else if w.letter == 's' {
      if args != [] && args[0].Str? { StringIs(args[0].text, prec, width, flags); }
    } else if w.letter == 'c' {
      if args != [] && args[0].Num? { CharIs(args[0].bits, width, flags); }
    }
  }

  lemma LetterKnown(w: Written)
    requires WellWritten(w)
    ensures IsModifier(w.modifier) && IsLetter(w.letter)
    ensures IsInteger(w.letter) <==> w.letter in "diuxXob"
    ensures w.letter in "diuxXobcp" <==> w.letter in "diuxXob" || w.letter == 'c' || w.letter == 'p'
  {
  }

  lemma CharIs(bits: u64, width: nat, flags: Flags)
    ensures CharText(bits, width, flags) == InSpaces([(bits % 0x100) as char], width, flags.left)
  {
  }

  lemma SizeIs(s: string, args: seq<Arg>)
    requires IsSize(s)
    ensures Taken(ReadSize(s), args) == Size(s, args)
    ensures Size(s, args).Some? ==> Size(s, args).value.0 < 0x1_0000_0000
    ensures s == "" ==> Size(s, args) == Some((0, args))
  {
    hide Value;
    NoDigits();
    if args != [] && args[0].Num? { SignedIs(args[0].bits, ""); }
  }

  /** The engine prints a conversion as the reference does. */
  lemma ConversionIs(w: Written, d: Directive, args: seq<Arg>)
    requires WellWritten(w) && d.Conv?
    requires d.flags == Flags('0' in w.flags, '-' in w.flags, '+' in w.flags, ' ' in w.flags, '#' in w.flags, false,
                              w.prec.Some?)
    requires d.width == ReadSize(w.width) && d.prec == ReadSize(if w.prec.Some? then w.prec.value else "")
    requires IntSpan(d.length) == TypeSpan(w.modifier) && d.spec == w.letter
    ensures RenderConv(d, args) == Conversion(w, args)
  {
    hide ConvText, Letter, ReadSize, Taken, Size, IntSpan, TypeSpan, IsSize, WellWritten, IsModifier, IsLetter;
    var point := if w.prec.Some? then w.prec.value else "";
    PartsAre(w);
    SizeIs(w.width, args);
    if Size(w.width, args).Some? {
      var (width, args1) := Size(w.width, args).value;
      SizeIs(point, args1);
      if Size(point, args1).Some? {
        hide RenderConv, Conversion;
        var (prec, args2) := Size(point, args1).value;
        var left := '-' in w.flags || width < 0;
        LetterIs(w, d.length, Max(prec, 0), Abs(width), left, d.flags.(left := left), args2);
        Printf.RenderParts(d, args, width, args1, prec, args2);
        SizesKnown(w, args, width, args1, prec, args2);
      }
    }
  }

  lemma SizesKnown(w: Written, args: seq<Arg>, width: int, args1: seq<Arg>, prec: int, args2: seq<Arg>)
    requires Size(w.width, args) == Some((width, args1))
    requires Size(if w.prec.Some? then w.prec.value else "", args1) == Some((prec, args2))
    ensures Conversion(w, args) ==
            Letter(w, Abs(width), if w.prec.Some? then Some(Max(prec, 0)) else None, '-' in w.flags || width < 0, args2)
  {
    hide Letter, Size;
  }

  // ---------------------------------------------------------------- whole formats

  lemma {:induction false} PlainIs(text: string, f: string, args: seq<Arg>)
    requires '%' !in text
    ensures TextOf(text + f, args) == Then(text, TextOf(f, args))
  {
    hide Parse, Render;
    if text == "" {
      assert text + f == f;
      if TextOf(f, args).Some? { assert "" + TextOf(f, args).value == TextOf(f, args).value; }
    } else {
      assert (text + f)[1..] == text[1..] + f && (text + f)[0] == text[0];
      PlainIs(text[1..], f, args);
      OneLiteral(text + f, args);
      assert [text[0]] + text[1..] == text;
      if TextOf(f, args).Some? { Associates([text[0]], text[1..], TextOf(f, args).value); }
    }
  }

  lemma OneLiteral(f: string, args: seq<Arg>)
    requires f != "" && f[0] != '%'
    ensures TextOf(f, args) == Then([f[0]], TextOf(f[1..], args))
  {
    if Parse(f[1..]).Some? { LiteralFirst(f[0], Parse(f[1..]).value, args); }
  }

  lemma LiteralFirst(c: char, ds: seq<Directive>, args: seq<Arg>)
    ensures Render([Literal(c)] + ds, args) == Then([c], Render(ds, args))
  {
    assert ([Literal(c)] + ds)[1..] == ds;
  }

  lemma PercentIs(w: Written, f: string, args: seq<Arg>)
    requires WellWritten(w) && Parse(f).Some?
    ensures Parse("%" + After(w) + f).Some?
    ensures TextOf("%" + After(w) + f, args) ==
            match Conversion(w, args)
            case None => None
            case Some(printed) => Then(printed.0, TextOf(f, printed.1))
  {
    hide Render, RenderConv, Conversion, WellWritten, After, ParseConv, ReadSize, IntSpan, TypeSpan;
    var d := ConversionIsRead(w, f);
    ConversionIs(w, d, args);
    assert ("%" + After(w) + f)[1..] == After(w) + f;
    OneConversion(d, Parse(f).value, args);
  }

  lemma OneConversion(d: Directive, ds: seq<Directive>, args: seq<Arg>)
    requires d.Conv?
    ensures Render([d] + ds, args) ==
            match RenderConv(d, args)
            case None => None
            case Some(printed) => Then(printed.0, Render(ds, printed.1))
  {
    hide RenderConv;
    assert ([d] + ds)[1..] == ds;
  }

  /** Every format made of plain text and well-written conversions prints what the reference says, on any
      arguments, and has no text exactly where the reference has none. */
  lemma {:induction false} FormatIs(pieces: seq<Piece>, args: seq<Arg>)
    requires WellFormed(pieces)
    ensures Parse(Format(pieces)).Some? && TextOf(Format(pieces), args) == Printed(pieces, args)
  {
    hide Parse, Render, Conversion, WellWritten, After;
    if pieces == [] {
      EmptyFormat(args);
    } else {
      var more := pieces[1..];
      match pieces[0]
      case Plain(text) =>
        FormatIs(more, args);
        PlainIs(text, Format(more), args);
        PlainParses(text, Format(more));
      case Percent(w) =>
        FormatParses(more);
        PercentIs(w, Format(more), args);
        if Conversion(w, args).Some? { FormatIs(more, Conversion(w, args).value.1); }
    }
  }

  lemma EmptyFormat(args: seq<Arg>)
    ensures Parse("").Some? && TextOf("", args) == Some("")
  {
  }

  lemma {:induction false} PlainParses(text: string, f: string)
    requires '%' !in text && Parse(f).Some?
    ensures Parse(text + f).Some?
  {
    if text == "" {
      assert text + f == f;
    } else {
      assert (text + f)[1..] == text[1..] + f;
      PlainParses(text[1..], f);
    }
  }

  lemma {:induction false} FormatParses(pieces: seq<Piece>)
    requires WellFormed(pieces)
    ensures Parse(Format(pieces)).Some?
  {
    hide Parse, WellWritten, After;
    if pieces == [] {
      EmptyFormat([]);
    } else {
      FormatParses(pieces[1..]);
      match pieces[0]
      case Plain(text) => PlainParses(text, Format(pieces[1..]));
      case Percent(w) => PercentIs(w, Format(pieces[1..]), []);
    }
  }
}
