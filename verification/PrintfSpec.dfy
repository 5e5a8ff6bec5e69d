/** The printf engine as parse, then render.  A format is a string without NUL characters;
    it and the argument list determine the text, for formats that stay clear of floating point. */
module PrintfSpec {
  import opened Bits
  import opened Common

  const BUFFER_SIZE: nat := 32  // PRINTF_NTOA_BUFFER_SIZE

  datatype Flags = Flags(zeropad: bool, left: bool, plus: bool, space: bool, hash: bool, uppercase: bool,
                         precision: bool)

  /** FLAGS_CHAR, FLAGS_SHORT, and FLAGS_LONG or FLAGS_LONG_LONG, whose types both have 64 bits. */
  datatype Length = IntLength | CharLength | ShortLength | LongLength

  /** One variadic argument: an integer or pointer in its 64-bit slot, or a NUL-terminated string. */
  datatype Arg = Num(bits: u64) | Str(text: string)

  datatype Size = Given(n: u32) | Star

  datatype Directive =
    | Literal(c: char)
    | Conv(flags: Flags, width: Size, prec: Size, length: Length, spec: char)

  // ---------------------------------------------------------------- characters and numbers

  predicate IsDigit(c: char) {
    '0' <= c <= '9'
  }

  predicate IsFlag(c: char) {
    c == '0' || c == '-' || c == '+' || c == ' ' || c == '#'
  }

  /** The length of the longest prefix of flag characters, or of digits. */
  function FlagRun(f: string): (k: nat)
    ensures k <= |f|
  {
    if f != "" && IsFlag(f[0]) then 1 + FlagRun(f[1..]) else 0
  }

  function DigitRun(f: string): (k: nat)
    ensures k <= |f|
  {
    if f != "" && IsDigit(f[0]) then 1 + DigitRun(f[1..]) else 0
  }

  /** The value of a decimal numeral. */
  function Decimal(ds: string): nat
    requires forall i :: 0 <= i < |ds| ==> IsDigit(ds[i])
  {
    if ds == "" then 0
    else
      assert IsDigit(ds[|ds| - 1]);
      10 * Decimal(ds[..|ds| - 1]) + (ds[|ds| - 1] as int - '0' as int)
  }

  lemma {:induction false} DigitRunIsDigits(f: string)
    ensures forall i :: 0 <= i < DigitRun(f) ==> IsDigit(f[i])
    ensures DigitRun(f) < |f| ==> !IsDigit(f[DigitRun(f)])
  {
    if f != "" && IsDigit(f[0]) {
      DigitRunIsDigits(f[1..]);
      forall i | 0 <= i < DigitRun(f) ensures IsDigit(f[i]) {
        if i > 0 { assert f[i] == f[1..][i - 1]; }
      }
    }
  }

  function Repeat(c: char, n: int): (r: string)
    ensures |r| == if n < 0 then 0 else n
    ensures forall i :: 0 <= i < |r| ==> r[i] == c
  {
    seq(if n < 0 then 0 else n, _ => c)
  }

  function Reverse(s: string): (r: string)
    ensures |r| == |s|
    ensures forall i :: 0 <= i < |s| ==> r[i] == s[|s| - 1 - i]
  {
    seq(|s|, i requires 0 <= i < |s| => s[|s| - 1 - i])
  }

  function Min(a: int, b: int): int {
    if a < b then a else b
  }

  function Max(a: int, b: int): int {
    if a < b then b else a
  }

  ghost predicate NoNul(s: string) {
    forall i :: 0 <= i < |s| ==> s[i] != '\0'
  }

  // ---------------------------------------------------------------- parsing

  function FlagsIn(run: string): Flags {
    Flags('0' in run, '-' in run, '+' in run, ' ' in run, '#' in run, false, false)
  }

  /** A numeral, `*`, or nothing, which counts as 0.  A numeral is read modulo 2^32. */
  function ParseSize(f: string): (r: (Size, string))
    ensures |r.1| <= |f|
  {
    if f != "" && IsDigit(f[0]) then
      DigitRunIsDigits(f);
      (Given(Decimal(f[..DigitRun(f)]) % U32), f[DigitRun(f)..])
    else if f != "" && f[0] == '*' then (Star, f[1..])
    else (Given(0), f)
  }

  /** Length modifiers: l, ll, h, hh, t, j, z. */
  function ParseLength(f: string): (r: (Length, string))
    ensures |r.1| <= |f|
  {
    if f == "" then (IntLength, f)
    else if f[0] == 'l' then (LongLength, if |f| > 1 && f[1] == 'l' then f[2..] else f[1..])
    else if f[0] == 'h' then if |f| > 1 && f[1] == 'h' then (CharLength, f[2..]) else (ShortLength, f[1..])
    else if f[0] == 't' || f[0] == 'j' || f[0] == 'z' then (LongLength, f[1..])
    else (IntLength, f)
  }

  predicate IsFloat(c: char) {
    c == 'f' || c == 'F' || c == 'e' || c == 'E' || c == 'g' || c == 'G'
  }

  /** What follows a percent sign, up to and including its conversion character, and the rest of the format.
      None where the format ends too early, so that the code would read past its NUL, and for floats. */
  function ParseConv(f: string): Option<(Directive, string)> {
    var (width, f1) := ParseSize(f[FlagRun(f)..]);
    var hasPrec := f1 != "" && f1[0] == '.';
    var (prec, f2) := if hasPrec then ParseSize(f1[1..]) else (Given(0), f1);
    var (length, f3) := ParseLength(f2);
    if f3 == "" || IsFloat(f3[0]) then None
    else Some((Conv(FlagsIn(f[..FlagRun(f)]).(precision := hasPrec), width, prec, length, f3[0]), f3[1..]))
  }

  lemma {:induction false} ParseConvShrinks(f: string)
    ensures ParseConv(f).Some? ==> |ParseConv(f).value.1| < |f|
  {
    hide ParseSize, ParseLength, FlagsIn;
  }

  function Parse(f: string): Option<seq<Directive>>
    decreases |f|
  {
    if f == "" then Some([])
    else if f[0] != '%' then
      match Parse(f[1..])
      case None => None
      case Some(ds) => Some([Literal(f[0])] + ds)
    else
      match ParseConv(f[1..])
      case None => None
      case Some((d, rest)) =>
        ParseConvShrinks(f[1..]);
        match Parse(rest)
        case None => None
        case Some(ds) => Some([d] + ds)
  }

  // ---------------------------------------------------------------- integers

  function DigitChar(d: nat, upper: bool): char
    requires d < 16
  {
    if d < 10 then ('0' as int + d) as char
    else if upper then ('A' as int + d - 10) as char
    else ('a' as int + d - 10) as char
  }

  /** The digits of a value, least significant first; at most `room` of them, at least one. */
  function DigitsOf(value: nat, base: nat, upper: bool, room: nat): (ds: string)
    requires 2 <= base <= 16 && room > 0
    ensures 1 <= |ds| <= room
    decreases room
  {
    var d := [DigitChar(value % base, upper)];
    if value / base == 0 || room == 1 then d else d + DigitsOf(value / base, base, upper, room - 1)
  }

  function PadZeros(buf: string, n: int): (r: string)
    ensures |r| == Max(|buf|, n)
  {
    buf + Repeat('0', n - |buf|)
  }

  /** Whether one column of the zero padding is kept for a sign. */
  predicate SignColumn(negative: bool, width: nat, flags: Flags) {
    !flags.left && width > 0 && flags.zeropad && (negative || flags.plus || flags.space)
  }

  function ZeroStage(digits: string, prec: nat, width: nat, flags: Flags): string {
    if flags.left then digits
    else PadZeros(PadZeros(digits, Min(prec, BUFFER_SIZE)), if flags.zeropad then Min(width, BUFFER_SIZE) else 0)
  }

  function PushFront(buf: string, c: char): string {
    if |buf| < BUFFER_SIZE then buf + [c] else buf
  }

  /** `#`: the prefix overwrites the leading padding when the digits fill the precision or the width. */
  function HashStage(buf: string, base: nat, prec: nat, width: nat, flags: Flags): string {
    if !flags.hash then buf
    else
      var cut := if !flags.precision && buf != "" && (|buf| == prec || |buf| == width)
                 then (if |buf| > 1 && base == 16 then 2 else 1) else 0;
      var b := buf[..|buf| - cut];
      var p := if base == 16 then PushFront(b, if flags.uppercase then 'X' else 'x')
               else if base == 2 then PushFront(b, 'b') else b;
      PushFront(p, '0')
  }

  function SignStage(buf: string, negative: bool, flags: Flags): string {
    if negative then PushFront(buf, '-')
    else if flags.plus then PushFront(buf, '+')
    else if flags.space then PushFront(buf, ' ')
    else buf
  }

  /** `_out_rev`: the buffer reversed, in a field. */
  function Field(buf: string, width: nat, flags: Flags): string {
    (if !flags.left && !flags.zeropad then Repeat(' ', width - |buf|) else "")
    + Reverse(buf)
    + (if flags.left then Repeat(' ', width - |buf|) else "")
  }

  /** `_ntoa_format` */
  function FormatText(digits: string, negative: bool, base: nat, prec: nat, width: nat, flags: Flags): string {
    var w := if SignColumn(negative, width, flags) then width - 1 else width;
    Field(SignStage(HashStage(ZeroStage(digits, prec, w, flags), base, prec, w, flags), negative, flags), w, flags)
  }

  /** The digits `_ntoa_long` puts into its buffer: none for a zero value with a precision. */
  function BufferDigits(value: u64, base: nat, flags: Flags): string
    requires 2 <= base <= 16
  {
    if flags.precision && value == 0 then "" else DigitsOf(value, base, flags.uppercase, BUFFER_SIZE)
  }

  /** `_ntoa_long` and `_ntoa_long_long` */
  function NumberText(value: u64, negative: bool, base: nat, prec: nat, width: nat, flags: Flags): string
    requires 2 <= base <= 16
  {
    var fl := if value == 0 then flags.(hash := false) else flags;
    FormatText(BufferDigits(value, base, flags), negative, base, prec, width, fl)
  }

  // ---------------------------------------------------------------- rendering

  function Signed(bits: nat, span: nat): int
    requires span > 0
  {
    var r := bits % span;
    if 2 * r < span then r else r - span
  }

  function IntSpan(length: Length): (span: nat)
    ensures span > 0
  {
    match length
    case IntLength => U32
    case CharLength => 0x100
    case ShortLength => 0x1_0000
    case LongLength => U64
  }

  function Abs(v: int): nat {
    if v < 0 then -v else v
  }

  /** A width or precision taken from an `int` argument. */
  function Taken(size: Size, args: seq<Arg>): Option<(int, seq<Arg>)> {
    match size
    case Given(n) => Some((n, args))
    case Star => if args != [] && args[0].Num? then Some((Signed(args[0].bits, U32), args[1..])) else None
  }

  function BaseOf(spec: char): nat {
    if spec == 'x' || spec == 'X' then 16 else if spec == 'o' then 8 else if spec == 'b' then 2 else 10
  }

  predicate IsInteger(spec: char) {
    spec == 'd' || spec == 'i' || spec == 'u' || spec == 'x' || spec == 'X' || spec == 'o' || spec == 'b'
  }

  predicate IsSigned(spec: char) {
    spec == 'd' || spec == 'i'
  }

  /** The flags an integer conversion uses. */
  function IntegerFlags(spec: char, flags: Flags): Flags {
    flags.(hash := flags.hash && BaseOf(spec) != 10,
           uppercase := spec == 'X',
           plus := flags.plus && IsSigned(spec),
           space := flags.space && IsSigned(spec),
           zeropad := flags.zeropad && !flags.precision)
  }

  function IntegerText(spec: char, bits: u64, length: Length, prec: nat, width: nat, flags: Flags): string {
    var fl := IntegerFlags(spec, flags);
    if IsSigned(spec) then
      var v := Signed(bits, IntSpan(length));
      NumberText(Abs(v), v < 0, 10, prec, width, fl)
    else NumberText(bits % IntSpan(length), false, BaseOf(spec), prec, width, fl)
  }

  /** A string or character in a field of spaces; `len` is the length the padding is computed from. */
  function Padded(text: string, len: nat, width: nat, left: bool): string {
    if left then text + Repeat(' ', width - len) else Repeat(' ', width - len) + text
  }

  function StringText(s: string, prec: nat, width: nat, flags: Flags): string {
    var l := (if prec > 0 then Min(|s|, prec) else |s|) % U32;
    var len := if flags.precision then Min(l, prec) else l;
    Padded(if flags.precision then s[..Min(|s|, prec)] else s, len, width, flags.left)
  }

  function CharText(bits: u64, width: nat, flags: Flags): string {
    Padded([(bits % 0x100) as char], 1, width, flags.left)
  }

  function PointerText(bits: u64, prec: nat, flags: Flags): string {
    NumberText(bits, false, 16, prec, 16, flags.(zeropad := true, uppercase := true))
  }

  /** One conversion with its sizes known. */
  function ConvText(spec: char, flags: Flags, length: Length, width: nat, prec: nat, args: seq<Arg>)
    : Option<(string, seq<Arg>)>
  {
    if IsInteger(spec) then
      if args != [] && args[0].Num?
      then Some((IntegerText(spec, args[0].bits, length, prec, width, flags), args[1..])) else None
    else if spec == 'c' then
      if args != [] && args[0].Num? then Some((CharText(args[0].bits, width, flags), args[1..])) else None
    else if spec == 's' then
      if args != [] && args[0].Str? then Some((StringText(args[0].text, prec, width, flags), args[1..])) else None
    else if spec == 'p' then
      if args != [] && args[0].Num? then Some((PointerText(args[0].bits, prec, flags), args[1..])) else None
    else Some(([spec], args))
  }

  /** One conversion: sizes are taken from the arguments before the value.  A negative width turns on `-`,
      a negative precision counts as 0. */
  function RenderConv(d: Directive, args: seq<Arg>): Option<(string, seq<Arg>)>
    requires d.Conv?
  {
    match Taken(d.width, args)
    case None => None
    case Some((w, args1)) =>
      match Taken(d.prec, args1)
      case None => None
      case Some((p, args2)) =>
        ConvText(d.spec, d.flags.(left := d.flags.left || w < 0), d.length, Abs(w), Max(p, 0), args2)
  }

  function Render(ds: seq<Directive>, args: seq<Arg>): Option<string> {
    if ds == [] then Some("")
    else if ds[0].Literal? then
      match Render(ds[1..], args)
      case None => None
      case Some(t) => Some([ds[0].c] + t)
    else
      match RenderConv(ds[0], args)
      case None => None
      case Some((text, rest)) =>
        match Render(ds[1..], rest)
        case None => None
        case Some(t) => Some(text + t)
  }

  /** The text of a format and its arguments, None unless both are well formed. */
  function TextOf(f: string, args: seq<Arg>): Option<string> {
    match Parse(f)
    case None => None
    case Some(ds) => Render(ds, args)
  }
}
