/** The printf engine as printf.c runs it: one pass over the format, digits written backwards into a
    32-character buffer, every character handed to an output function with a running index. */
module Printf {
  import opened Bits
  import opened Common
  import opened PrintfSpec

  /** `_out_buffer`, `_out_char` and `_out_null`. */
  datatype OutKind = ToBuffer | ToConsole | Discard

  /** What a caller's buffer holds after the characters of `text` were written with a limit. */
  function Overlay(initial: seq<char>, text: string, maxlen: nat): (r: seq<char>)
    ensures |r| == |initial|
  {
    seq(|initial|, i requires 0 <= i < |initial| => if i < |text| && i < maxlen then text[i] else initial[i])
  }

  /** The characters other than NUL. */
  function NonNul(text: string): string {
    if text == "" then ""
    else NonNul(text[..|text| - 1]) + if text[|text| - 1] == '\0' then "" else [text[|text| - 1]]
  }

  /** An output function with its buffer and limit.  `emitted` is everything handed to it so far. */
  class Output {
    const kind: OutKind
    const maxlen: nat
    const buffer: array<char>
    var console: string
    ghost const initial: seq<char>
    ghost const before: string
    ghost var emitted: string

    constructor (kind: OutKind, maxlen: nat, buffer: array<char>, console: string)
      ensures this.kind == kind && this.maxlen == maxlen && this.buffer == buffer
      ensures Valid() && emitted == "" && initial == buffer[..] && before == console
    {
      this.kind, this.maxlen, this.buffer, this.console := kind, maxlen, buffer, console;
      initial, before, emitted := buffer[..], console, "";
      new;
      assert Overlay(initial, "", maxlen) == initial;
    }

    ghost predicate Valid()
      reads this, buffer
    {
      && buffer[..] == (if kind.ToBuffer? then Overlay(initial, emitted, maxlen) else initial)
      && console == (if kind.ToConsole? then before + NonNul(emitted) else before)
    }

    /** n more characters stay inside the caller's buffer. */
    ghost predicate Room(n: nat)
      reads this
    {
      kind.ToBuffer? ==> maxlen <= buffer.Length || |emitted| + n <= buffer.Length
    }

    /** `out(c, buffer, idx, maxlen)` */
    method Out(c: char, idx: nat)
      requires kind.ToBuffer? && idx < maxlen ==> idx < buffer.Length
      modifies this`console, buffer
      ensures buffer[..] == if kind.ToBuffer? && idx < maxlen then old(buffer[..])[idx := c] else old(buffer[..])
      ensures console == if kind.ToConsole? && c != '\0' then old(console) + [c] else old(console)
    {
      match kind
      case ToBuffer =>
        if idx < maxlen {
          buffer[idx] := c;
        }
      case ToConsole =>
        if c != '\0' {
          console := console + [c];
        }
      case Discard =>
    }

    /** `out(c, buffer, idx++, maxlen)` */
    method Emit(c: char, idx: nat) returns (next: nat)
      requires Valid() && idx == |emitted| && Room(1)
      modifies this`console, this`emitted, buffer
      ensures Valid() && emitted == old(emitted) + [c] && next == |emitted|
    {
      Out(c, idx);
      emitted := emitted + [c];
      assert emitted[..|emitted| - 1] == old(emitted);
      if kind.ToBuffer? {
        assert buffer[..] == Overlay(initial, emitted, maxlen);
      }
      next := idx + 1;
    }

    /** A loop that emits n copies of a character. */
    method EmitMany(c: char, n: int, idx: nat) returns (next: nat)
      requires Valid() && idx == |emitted| && Room(if n < 0 then 0 else n)
      modifies this`console, this`emitted, buffer
      ensures Valid() && emitted == old(emitted) + Repeat(c, n) && next == |emitted|
    {
      next := idx;
      var i := 0;
      while i < n
        invariant i == 0 || i <= n
        invariant 0 <= i && Valid() && next == |emitted| && emitted == old(emitted) + Repeat(c, i)
      {
        assert Repeat(c, i) + [c] == Repeat(c, i + 1);
        next := Emit(c, next);
        i := i + 1;
      }
    }

    /** `while (len) out(buf[--len], ...)` */
    method EmitReversed(buf: array<char>, len: nat, idx: nat) returns (next: nat)
      requires Valid() && idx == |emitted| && len <= buf.Length && buf != buffer && Room(len)
      modifies this`console, this`emitted, buffer
      ensures Valid() && emitted == old(emitted) + Reverse(buf[..len]) && next == |emitted|
      ensures buf[..] == old(buf[..])
    {
      hide Overlay, NonNul;
      next := idx;
      ghost var digits := buf[..len];
      var left := len;
      while left > 0
        invariant 0 <= left <= len && buf[..] == old(buf[..]) && buf[..len] == digits
        invariant Valid() && next == |emitted|
        invariant emitted == old(emitted) + Reverse(digits)[..len - left]
      {
        left := left - 1;
        assert Reverse(digits)[..len - left] == Reverse(digits)[..len - left - 1] + [buf[left]];
        next := Emit(buf[left], next);
      }
      assert Reverse(digits)[..len] == Reverse(digits);
    }

    /** `_out_rev` */
    method OutRev(idx: nat, buf: array<char>, len: nat, width: nat, flags: Flags) returns (next: nat)
      requires Valid() && idx == |emitted| && len <= buf.Length && buf != buffer
      requires Room(|Field(buf[..len], width, flags)|)
      modifies this`console, this`emitted, buffer
      ensures Valid() && emitted == old(emitted) + Field(buf[..len], width, flags) && next == |emitted|
    {
      hide Overlay, NonNul, Field, Repeat, Reverse;
      next := idx;
      ghost var digits := buf[..len];
      ghost var pre := if !flags.left && !flags.zeropad then Repeat(' ', width - len) else "";
      ghost var post := if flags.left then Repeat(' ', width - len) else "";
      FieldParts(digits, width, flags, pre, post);
      ghost var before := emitted;
      if !flags.left && !flags.zeropad {
        next := EmitMany(' ', width - len, next);
      }
      assert emitted == before + pre;
      next := EmitReversed(buf, len, next);
      ghost var middle := emitted;
      if flags.left {
        next := EmitMany(' ', width - len, next);
      }
      assert emitted == middle + post;
      Associates(before, pre, Reverse(digits));
      Associates(before, pre + Reverse(digits), post);
    }

    /** `_ntoa_format` */
    method NtoaFormat(idx: nat, buf: array<char>, len0: nat, negative: bool, base: nat, prec: nat, width0: nat,
                      flags: Flags)
      returns (next: nat)
      requires Valid() && idx == |emitted| && len0 <= buf.Length == BUFFER_SIZE && buf != buffer
      requires Room(|FormatText(buf[..len0], negative, base, prec, width0, flags)|)
      modifies this`console, this`emitted, buffer, buf
      ensures Valid() && next == |emitted|
      ensures emitted == old(emitted) + FormatText(old(buf[..len0]), negative, base, prec, width0, flags)
    {
      hide Field, ZeroStage, HashStage, SignStage;
      var width := width0;
      if !flags.left && width > 0 && flags.zeropad && (negative || flags.plus || flags.space) {
        width := width - 1;
      }
      var len := WriteZeros(buf, len0, prec, width, flags);
      len := WriteHash(buf, len, base, prec, width, flags);
      len := WriteSign(buf, len, negative, flags);
      next := OutRev(idx, buf, len, width, flags);
    }

    /** `_ntoa_long`; `_ntoa_long_long` has the same body and the same 64-bit type. */
    method NtoaLong(idx: nat, value0: u64, negative: bool, base: nat, prec: nat, width: nat, flags0: Flags)
        returns (next: nat)
      requires Valid() && idx == |emitted| && 2 <= base <= 16
      requires Room(|NumberText(value0, negative, base, prec, width, flags0)|)
      modifies this`console, this`emitted, buffer
      ensures Valid() && next == |emitted|
      ensures emitted == old(emitted) + NumberText(value0, negative, base, prec, width, flags0)
    {
      hide FormatText, DigitsOf;
      var buf := new char[BUFFER_SIZE];
      var len, value, flags := 0, value0, flags0;
      if value == 0 {
        flags := flags.(hash := false);
      }
      if !flags.precision || value != 0 {
        len, value := WriteDigits(buf, value, base, flags.uppercase);
      }
      assert buf[..len] == BufferDigits(value0, base, flags0);
      next := NtoaFormat(idx, buf, len, negative, base, prec, width, flags);
    }

    /** The integer conversions. */
    method ConvertInteger(spec: char, bits: u64, length: Length, prec: nat, width: nat, flags0: Flags, idx: nat)
      returns (next: nat)
      requires Valid() && idx == |emitted| && IsInteger(spec)
      requires Room(|IntegerText(spec, bits, length, prec, width, flags0)|)
      modifies this`console, this`emitted, buffer
      ensures Valid() && next == |emitted| && emitted ==
              old(emitted) + IntegerText(spec, bits, length, prec, width, flags0)
    {
      hide NumberText, Overlay, NonNul, Signed, IntegerFlags;
      var base, flags := IntegerSetup(spec, flags0);
      if spec == 'i' || spec == 'd' {
        var value := Signed(bits, IntSpan(length));
        SignedFits(bits, length);
        next := NtoaLong(idx, if value > 0 then value else 0 - value, value < 0, base, prec, width, flags);
      } else {
        next := NtoaLong(idx, bits % IntSpan(length), false, base, prec, width, flags);
      }
    }

    /** `%c` */
    method ConvertChar(bits: u64, width: nat, flags: Flags, idx: nat) returns (next: nat)
      requires Valid() && idx == |emitted| && Room(|CharText(bits, width, flags)|)
      modifies this`console, this`emitted, buffer
      ensures Valid() && next == |emitted| && emitted == old(emitted) + CharText(bits, width, flags)
    {
      ghost var c := [(bits % 0x100) as char];
      ghost var pad := Repeat(' ', width - 1);
      next := idx;
      if !flags.left {
        next := EmitMany(' ', width - 1, next);
        assert emitted == old(emitted) + pad;
      }
      next := Emit((bits % 0x100) as char, next);
      if flags.left {
        next := EmitMany(' ', width - 1, next);
        assert emitted == old(emitted) + c + pad;
      }
      assert CharText(bits, width, flags) == if flags.left then c + pad else pad + c;
    }

    /** `%s` */
    method ConvertString(p: string, prec: nat, width: nat, flags: Flags, idx: nat) returns (next: nat)
      requires Valid() && idx == |emitted| && Room(|StringText(p, prec, width, flags)|) && NoNul(p) && |p| < U64
      modifies this`console, this`emitted, buffer
      ensures Valid() && next == |emitted| && emitted == old(emitted) + StringText(p, prec, width, flags)
    {
      hide Repeat, StringText, Overlay, NonNul, NoNul;
      var l := Strnlen(p, if prec > 0 then prec else 0xffff_ffff_ffff_ffff);
      l := l % U32;
      if flags.precision {
        l := if l < prec then l else prec;
      }
      StringParts(p, prec, width, flags, l);
      ghost var text := if flags.precision then p[..Min(|p|, prec)] else p;
      ghost var pad := Repeat(' ', width - l);
      ghost var before := emitted;
      assert |StringText(p, prec, width, flags)| == |text| + |pad|;
      next := idx;
      if !flags.left {
        next := EmitMany(' ', width - l, next);
        assert emitted == before + pad;
      }
      next := EmitString(p, prec, flags.precision, next);
      assert emitted == if flags.left then before + text else before + pad + text;
      if flags.left {
        next := EmitMany(' ', width - l, next);
        Associates(before, text, pad);
      } else {
        Associates(before, pad, text);
      }
    }

    /** `while (*p != 0 && (!(flags & FLAGS_PRECISION) || precision--)) out(*(p++), ...)` */
    method EmitString(p: string, prec: nat, limited: bool, idx: nat) returns (next: nat)
      requires Valid() && idx == |emitted| && NoNul(p) && Room(if limited then Min(|p|, prec) else |p|)
      modifies this`console, this`emitted, buffer
      ensures Valid() && next == |emitted|
      ensures emitted == old(emitted) + if limited then p[..Min(|p|, prec)] else p
    {
      ghost var n := if limited then Min(|p|, prec) else |p|;
      next := idx;
      var k := 0;
      while At(p, k) != '\0' && (!limited || k < prec)
        invariant 0 <= k <= n && Valid() && next == |emitted| && emitted == old(emitted) + p[..k]
        decreases |p| - k
      {
        assert p[..k + 1] == p[..k] + [p[k]];
        next := Emit(p[k], next);
        k := k + 1;
      }
      assert p[..|p|] == p;
    }

    /** The switch on the conversion character. */
    method Convert(spec: char, flags: Flags, length: Length, width: nat, prec: nat, args: seq<Arg>, idx: nat)
      returns (next: nat, used: nat)
      requires Valid() && idx == |emitted| && ArgsOk(args)
      requires ConvText(spec, flags, length, width, prec, args).Some?
      requires Room(|ConvText(spec, flags, length, width, prec, args).value.0|)
      modifies this`console, this`emitted, buffer
      ensures Valid() && next == |emitted| && used <= |args|
      ensures ConvText(spec, flags, length, width, prec, args).value.1 == args[used..]
      ensures emitted == old(emitted) + ConvText(spec, flags, length, width, prec, args).value.0
    {
      hide IntegerText, CharText, StringText, NumberText;
      used := if IsInteger(spec) || spec == 'c' || spec == 's' || spec == 'p' then 1 else 0;
      if IsInteger(spec) {
        next := ConvertInteger(spec, args[0].bits, length, prec, width, flags, idx);
      } else if spec == 'c' {
        next := ConvertChar(args[0].bits, width, flags, idx);
      } else if spec == 's' {
        assert args[0].Str?;
        next := ConvertString(args[0].text, prec, width, flags, idx);
      } else if spec == 'p' {
        assert PointerText(args[0].bits, prec, flags) ==
          NumberText(args[0].bits, false, 16, prec, 16, flags.(zeropad := true, uppercase := true));
        next := NtoaLong(idx, args[0].bits, false, 16, prec, 16, flags.(zeropad := true, uppercase := true));
      } else {
        next := Emit(spec, idx);
      }
    }

    /** One conversion of the format, from behind its percent sign. */
    method ConvertOne(f: string, i0: nat, args: seq<Arg>, a0: nat, idx: nat) returns (i: nat, a: nat, next: nat)
      requires Valid() && idx == |emitted| && i0 <= |f| && a0 <= |args| && NoNul(f) && ArgsOk(args)
      requires ParseConv(f[i0..]).Some? && RenderConv(ParseConv(f[i0..]).value.0, args[a0..]).Some?
      requires Room(|RenderConv(ParseConv(f[i0..]).value.0, args[a0..]).value.0|)
      modifies this`console, this`emitted, buffer
      ensures Valid() && next == |emitted|
      ensures i0 < i <= |f| && f[i..] == ParseConv(f[i0..]).value.1
      ensures a <= |args| && args[a..] == RenderConv(ParseConv(f[i0..]).value.0, args[a0..]).value.1
      ensures emitted == old(emitted) + RenderConv(ParseConv(f[i0..]).value.0, args[a0..]).value.0
    {
      hide ParseConv, RenderConv, ConvText, NoNul;
      var flags, width, precision, length;
      flags, width, precision, length, i, a := ReadConv(f, i0, args, a0);
      ghost var a1 := a;
      ArgsTail(args, a);
      var used;
      next, used := Convert(f[i], flags, length, width, precision, args[a..], idx);
      a := a + used;
      assert args[a1..][used..] == args[a..];
      i := i + 1;
    }

    /** `_vsnprintf` */
    method Vsnprintf(f: string, args: seq<Arg>) returns (ret: int)
      requires Valid() && emitted == "" && NoNul(f) && ArgsOk(args)
      requires TextOf(f, args).Some? && maxlen < U64
      requires kind.ToBuffer? ==> maxlen <= buffer.Length || |TextOf(f, args).value| < buffer.Length
      modifies this`console, this`emitted, buffer
      ensures var text := TextOf(f, args).value;
              && ret == Signed(|text|, U32)
              && emitted == text
              && console == (if kind.ToConsole? then before + NonNul(text) else before)
              && buffer[..] == if kind.ToBuffer? then Terminated(initial, text, maxlen) else initial
    {
      hide ParseConv, RenderConv, TextOf, NonNul, Overlay, Terminated, NoNul, ArgsOk;
      ghost var text := TextOf(f, args).value;
      var idx, i, a := 0, 0, 0;
      assert f[0..] == f && args[0..] == args;
      NulAtEnd(f);
      while At(f, i) != '\0'
        invariant 0 <= i <= |f| && 0 <= a <= |args| && Valid() && idx == |emitted|
        invariant TextOf(f[i..], args[a..]).Some?
        invariant emitted + TextOf(f[i..], args[a..]).value == text
        decreases |f| - i
      {
        ghost var here, rest, done := f[i..], args[a..], emitted;
        ArgsTail(args, a);
        if f[i] != '%' {
          TextOfLiteral(here, rest);
          assert here[1..] == f[i + 1..];
          idx := Emit(f[i], idx);
          i := i + 1;
          assert done + ([here[0]] + TextOf(f[i..], rest).value) == (done + [here[0]]) + TextOf(f[i..], rest).value;
        } else {
          TextOfConv(here, rest);
          i := i + 1;
          assert here[1..] == f[i..];
          ghost var piece := RenderConv(ParseConv(f[i..]).value.0, rest).value.0;
          i, a, idx := ConvertOne(f, i, args, a, idx);
          assert done + (piece + TextOf(f[i..], args[a..]).value) == (done + piece) + TextOf(f[i..], args[a..]).value;
        }
      }
      TextOfEnd(args[a..]);
      assert f[i..] == "" && emitted == text;
      Terminate(idx);
      ret := Signed(idx, U32);
    }

    /** `out((char)0, buffer, idx < maxlen ? idx : maxlen - 1U, maxlen)`, the index being a `size_t` */
    method Terminate(idx: nat)
      requires Valid() && idx == |emitted| && maxlen < U64
      requires kind.ToBuffer? ==> maxlen <= buffer.Length || idx < buffer.Length
      modifies this`console, buffer
      ensures console == (if kind.ToConsole? then before + NonNul(emitted) else before)
      ensures buffer[..] == if kind.ToBuffer? then Terminated(initial, emitted, maxlen) else initial
    {
      Out('\0', if idx < maxlen then idx else (maxlen + U64 - 1) % U64);
    }
  }

  /** Flags, width, precision and length of one conversion; i is left at its conversion character. */
  method ReadConv(f: string, i0: nat, args: seq<Arg>, a0: nat)
    returns (flags: Flags, width: nat, precision: nat, length: Length, i: nat, a: nat)
    requires i0 <= |f| && a0 <= |args| && NoNul(f)
    requires ParseConv(f[i0..]).Some? && RenderConv(ParseConv(f[i0..]).value.0, args[a0..]).Some?
    ensures i0 <= i < |f| && a0 <= a <= |args|
    ensures f[i + 1..] == ParseConv(f[i0..]).value.1
    ensures RenderConv(ParseConv(f[i0..]).value.0, args[a0..]) ==
            ConvText(f[i], flags, length, width, precision, args[a..])
  {
    hide FlagRun, FlagsIn, ParseSize, ParseLength, ParseConv, ConvText, Taken, Decimal, RenderConv;
    ghost var c := f[i0..];
    ghost var d := ParseConv(c).value.0;
    ConvParts(c);
    RenderTakes(d, args[a0..]);
    flags, i := EvaluateFlags(f, i0);
    assert c[FlagRun(c)..] == f[i..];
    var w, p;
    w, i, a := EvaluateSize(f, i, args, a0);
    flags := flags.(left := flags.left || w < 0);
    width := Abs(w);
    ghost var a1 := a;
    p := 0;
    if At(f, i) == '.' {
      flags := flags.(precision := true);
      i := i + 1;
      assert f[i - 1..][1..] == f[i..];
      p, i, a := EvaluateSize(f, i, args, a);
    } else {
      TakenZero(args[a..]);
    }
    precision := Max(p, 0);
    length, i := EvaluateLength(f, i);
    assert f[i..][0] == d.spec && f[i..][1..] == f[i + 1..];
    RenderParts(d, args[a0..], w, args[a1..], p, args[a..]);
    assert flags.precision == d.flags.precision;
    assert flags == d.flags.(left := d.flags.left || w < 0);
  }

  lemma FieldParts(digits: string, width: nat, flags: Flags, pre: string, post: string)
    requires pre == if !flags.left && !flags.zeropad then Repeat(' ', width - |digits|) else ""
    requires post == if flags.left then Repeat(' ', width - |digits|) else ""
    ensures Field(digits, width, flags) == pre + Reverse(digits) + post
    ensures |Field(digits, width, flags)| == |pre| + |digits| + |post|
  {
  }

  /** The base and the flags of an integer conversion. */
  method IntegerSetup(spec: char, flags0: Flags) returns (base: nat, flags: Flags)
    requires IsInteger(spec)
    ensures base == BaseOf(spec) && flags == IntegerFlags(spec, flags0)
  {
    flags := flags0;
    if spec == 'x' || spec == 'X' {
      base := 16;
    } else if spec == 'o' {
      base := 8;
    } else if spec == 'b' {
      base := 2;
    } else {
      base := 10;
      flags := flags.(hash := false);
    }
    flags := flags.(uppercase := spec == 'X');
    if spec != 'i' && spec != 'd' {
      flags := flags.(plus := false, space := false);
    }
    if flags.precision {
      flags := flags.(zeropad := false);
    }
  }

  lemma SignedFits(bits: u64, length: Length)
    ensures Abs(Signed(bits, IntSpan(length))) < U64
  {
  }

  lemma RenderTakes(d: Directive, args: seq<Arg>)
    requires d.Conv? && RenderConv(d, args).Some?
    ensures Taken(d.width, args).Some? && Taken(d.prec, Taken(d.width, args).value.1).Some?
  {
    hide ConvText;
  }

  lemma RenderParts(d: Directive, args: seq<Arg>, w: int, args1: seq<Arg>, p: int, args2: seq<Arg>)
    requires d.Conv? && Taken(d.width, args) == Some((w, args1)) && Taken(d.prec, args1) == Some((p, args2))
    ensures RenderConv(d, args) ==
            ConvText(d.spec, d.flags.(left := d.flags.left || w < 0), d.length, Abs(w), Max(p, 0), args2)
  {
    hide ConvText;
  }

  /** `while (len < n && len < PRINTF_NTOA_BUFFER_SIZE) buf[len++] = '0'` */
  method FillZeros(buf: array<char>, len0: nat, n: nat) returns (len: nat)
    requires len0 <= buf.Length == BUFFER_SIZE
    modifies buf
    ensures len <= BUFFER_SIZE && buf[..len] == PadZeros(old(buf[..len0]), Min(n, BUFFER_SIZE))
  {
    len := len0;
    while len < n && len < BUFFER_SIZE
      invariant len0 <= len <= BUFFER_SIZE && (len == len0 || len <= n)
      invariant buf[..len] == old(buf[..len0]) + Repeat('0', len - len0)
    {
      buf[len] := '0';
      len := len + 1;
    }
  }

  /** The leading zeros of `_ntoa_format`. */
  method WriteZeros(buf: array<char>, len0: nat, prec: nat, width: nat, flags: Flags) returns (len: nat)
    requires len0 <= buf.Length == BUFFER_SIZE
    modifies buf
    ensures len <= BUFFER_SIZE && buf[..len] == ZeroStage(old(buf[..len0]), prec, width, flags)
  {
    len := len0;
    if !flags.left {
      ZerosCapped(buf[..len0], prec, width);
      len := FillZeros(buf, len, prec);
      if flags.zeropad {
        len := FillZeros(buf, len, width);
      }
    }
  }

  /** `buf[len++] = c`, where there is room. */
  method Push(buf: array<char>, len0: nat, c: char) returns (len: nat)
    requires len0 <= buf.Length == BUFFER_SIZE
    modifies buf
    ensures len <= BUFFER_SIZE && buf[..len] == PushFront(old(buf[..len0]), c)
  {
    len := len0;
    if len < BUFFER_SIZE {
      buf[len] := c;
      len := len + 1;
    }
  }

  /** The `#` prefix of `_ntoa_format`. */
  method WriteHash(buf: array<char>, len0: nat, base: nat, prec: nat, width: nat, flags: Flags) returns (len: nat)
    requires len0 <= buf.Length == BUFFER_SIZE
    modifies buf
    ensures len <= BUFFER_SIZE && buf[..len] == HashStage(old(buf[..len0]), base, prec, width, flags)
  {
    hide PushFront;
    len := len0;
    if flags.hash {
      if !flags.precision && len > 0 && (len == prec || len == width) {
        len := len - 1;
        if len > 0 && base == 16 {
          len := len - 1;
        }
      }
      assert buf[..len] == buf[..len0][..len];
      if base == 16 && !flags.uppercase {
        len := Push(buf, len, 'x');
      } else if base == 16 && flags.uppercase {
        len := Push(buf, len, 'X');
      } else if base == 2 {
        len := Push(buf, len, 'b');
      }
      len := Push(buf, len, '0');
    }
  }

  /** The sign of `_ntoa_format`. */
  method WriteSign(buf: array<char>, len0: nat, negative: bool, flags: Flags) returns (len: nat)
    requires len0 <= buf.Length == BUFFER_SIZE
    modifies buf
    ensures len <= BUFFER_SIZE && buf[..len] == SignStage(old(buf[..len0]), negative, flags)
  {
    hide PushFront;
    len := len0;
    if negative {
      len := Push(buf, len, '-');
    } else if flags.plus {
      len := Push(buf, len, '+');
    } else if flags.space {
      len := Push(buf, len, ' ');
    }
  }

  lemma ZerosCapped(digits: string, prec: nat, width: nat)
    requires |digits| <= BUFFER_SIZE
    ensures PadZeros(digits, 0) == digits
    ensures forall n :: n == Min(prec, BUFFER_SIZE) ==> PadZeros(PadZeros(digits, n), 0) == PadZeros(digits, n)
  {
  }

  /** The digit loop of `_ntoa_long`. */
  method WriteDigits(buf: array<char>, value0: u64, base: nat, upper: bool) returns (len: nat, value: u64)
    requires buf.Length == BUFFER_SIZE && 2 <= base <= 16
    modifies buf
    ensures len <= BUFFER_SIZE && buf[..len] == DigitsOf(value0, base, upper, BUFFER_SIZE)
  {
    hide DigitChar, DigitsOf;
    len, value := 0, value0;
    while true
      invariant 0 <= len < BUFFER_SIZE
      invariant buf[..len] + DigitsOf(value, base, upper, BUFFER_SIZE - len) ==
          DigitsOf(value0, base, upper, BUFFER_SIZE)
      decreases BUFFER_SIZE - len
    {
      DigitsStep(value, base, upper, BUFFER_SIZE - len);
      ghost var done := buf[..len];
      var digit := DigitChar(value % base, upper);
      Associates(done, [digit], DigitsOf(value, base, upper, BUFFER_SIZE - len)[1..]);
      buf[len] := digit;
      len := len + 1;
      assert buf[..len] == done + [digit];
      value := value / base;
      if value == 0 || len == BUFFER_SIZE {
        break;
      }
    }
  }

  lemma DigitsStep(value: nat, base: nat, upper: bool, room: nat)
    requires 2 <= base <= 16 && room > 0
    ensures 0 <= value / base <= value && value % base < 16
    ensures DigitsOf(value, base, upper, room) == [DigitChar(value % base, upper)] +
            (if value / base == 0 || room == 1 then "" else DigitsOf(value / base, base, upper, room - 1))
  {
    DivSmaller(value, base);
  }

  lemma DivSmaller(x: nat, b: nat)
    requires b >= 2
    ensures x / b <= x && (x > 0 ==> x / b < x)
  {
    if x < b {
      QuotientIs(x, b, 0, x);
    } else {
      Twice(x / b, b);
    }
  }

  lemma Twice(q: nat, b: nat)
    requires b >= 2
    ensures q * b >= q + q
  {
    if q > 0 { MulAtLeast(b - 1, q); }
  }

  /** What a buffer holds in the end: as much of the text as fits before a NUL. */
  function Terminated(initial: seq<char>, text: string, maxlen: nat): (r: seq<char>)
    ensures |r| == |initial|
  {
    seq(|initial|, i requires 0 <= i < |initial| =>
      if i < |text| && i + 1 < maxlen then text[i]
      else if i < maxlen && (i == |text| || (i < |text| && i + 1 == maxlen)) then '\0'
      else initial[i])
  }

  lemma StringParts(p: string, prec: nat, width: nat, flags: Flags, l: nat)
    requires var n := (if prec > 0 then Min(|p|, prec) else |p|) % U32;
             l == if flags.precision then Min(n, prec) else n
    ensures var text := if flags.precision then p[..Min(|p|, prec)] else p;
            StringText(p, prec, width, flags) ==
            if flags.left then text + Repeat(' ', width - l) else Repeat(' ', width - l) + text
  {
  }

  /** String arguments end at their NUL, and fit the address space. */
  ghost predicate ArgsOk(args: seq<Arg>) {
    forall i :: 0 <= i < |args| && args[i].Str? ==> NoNul(args[i].text) && |args[i].text| < U64
  }

  lemma NulAtEnd(f: string)
    requires NoNul(f)
    ensures forall i :: 0 <= i <= |f| ==> (At(f, i) == '\0' <==> i == |f|)
  {
  }

  lemma ArgsTail(args: seq<Arg>, a: nat)
    requires ArgsOk(args) && a <= |args|
    ensures ArgsOk(args[a..])
  {
  }

  lemma TextOfEnd(args: seq<Arg>)
    ensures TextOf("", args) == Some("")
  {
  }

  lemma TextOfLiteral(f: string, args: seq<Arg>)
    requires f != "" && f[0] != '%' && TextOf(f, args).Some?
    ensures TextOf(f[1..], args).Some? && TextOf(f, args).value == [f[0]] + TextOf(f[1..], args).value
  {
    var ds := Parse(f[1..]).value;
    assert ([Literal(f[0])] + ds)[1..] == ds;
  }

  lemma TextOfConv(f: string, args: seq<Arg>)
    requires f != "" && f[0] == '%' && TextOf(f, args).Some?
    ensures ParseConv(f[1..]).Some?
    ensures var (d, rest) := ParseConv(f[1..]).value;
            && d.Conv? && RenderConv(d, args).Some?
            && var (text, args1) := RenderConv(d, args).value;
               TextOf(rest, args1).Some? && TextOf(f, args).value == text + TextOf(rest, args1).value
  {
    hide RenderConv, ParseSize, ParseLength, FlagRun, FlagsIn;
    var (d, rest) := ParseConv(f[1..]).value;
    ParseConvShrinks(f[1..]);
    var ds := Parse(rest).value;
    assert ([d] + ds)[1..] == ds;
  }

  lemma TakenZero(args: seq<Arg>)
    ensures Taken(Given(0), args) == Some((0, args))
  {
  }

  /** The parts of a conversion, as they follow each other in the format. */
  lemma ConvParts(c: string)
    requires ParseConv(c).Some?
    ensures var (d, rest) := ParseConv(c).value;
            var (width, f1) := ParseSize(c[FlagRun(c)..]);
            var hasPrec := f1 != "" && f1[0] == '.';
            var (prec, f2) := if hasPrec then ParseSize(f1[1..]) else (Given(0), f1);
            var (length, f3) := ParseLength(f2);
            && f3 != "" && rest == f3[1..]
            && d == Conv(FlagsIn(c[..FlagRun(c)]).(precision := hasPrec), width, prec, length, f3[0])
  {
    hide FlagRun, FlagsIn, ParseSize, ParseLength;
  }

  /** `_strnlen_s` */
  method Strnlen(str: string, maxsize: nat) returns (n: nat)
    requires NoNul(str)
    ensures n == Min(|str|, maxsize)
  {
    n := 0;
    var left := maxsize;
    while At(str, n) != '\0' && left > 0
      invariant 0 <= n <= |str| && n + left == maxsize
      decreases |str| - n
    {
      left := left - 1;
      n := n + 1;
    }
  }

  lemma NoFlags()
    ensures FlagsIn("") == Flags(false, false, false, false, false, false, false)
  {
  }

  lemma FlagsMore(run: string, c: char)
    ensures FlagsIn(run + [c]) ==
            Flags('0' in run || c == '0', '-' in run || c == '-', '+' in run || c == '+', ' ' in run || c == ' ',
                  '#' in run || c == '#', false, false)
    ensures FlagsIn(run) == Flags('0' in run, '-' in run, '+' in run, ' ' in run, '#' in run, false, false)
  {
  }

  /** The flag loop of `_vsnprintf`. */
  method EvaluateFlags(f: string, i0: nat) returns (flags: Flags, i: nat)
    requires i0 <= |f|
    ensures i == i0 + FlagRun(f[i0..]) && i <= |f|
    ensures flags == FlagsIn(f[i0..][..FlagRun(f[i0..])]) && !flags.precision
  {
    hide FlagsIn;
    flags := Flags(false, false, false, false, false, false, false);
    NoFlags();
    i := i0;
    ghost var run := "";
    assert f[i0..][..0] == run;
    while i < |f| && IsFlag(f[i])
      invariant i0 <= i <= |f| && run == f[i0..i] && flags == FlagsIn(run) && !flags.precision
      invariant FlagRun(f[i0..]) == i - i0 + FlagRun(f[i..])
      decreases |f| - i
    {
      assert f[i..][1..] == f[i + 1..] && f[i0..i + 1] == f[i0..i] + [f[i]];
      if f[i] == '0' {
        flags := flags.(zeropad := true);
      } else if f[i] == '-' {
        flags := flags.(left := true);
      } else if f[i] == '+' {
        flags := flags.(plus := true);
      } else if f[i] == ' ' {
        flags := flags.(space := true);
      } else {
        flags := flags.(hash := true);
      }
      FlagsMore(run, f[i]);
      run := run + [f[i]];
      i := i + 1;
    }
    assert f[i0..][..i - i0] == run;
  }

  /** A width or precision field: a numeral, `*` with its argument, or nothing. */
  method EvaluateSize(f: string, i0: nat, args: seq<Arg>, a0: nat) returns (n: int, i: nat, a: nat)
    requires i0 <= |f| && a0 <= |args|
    requires Taken(ParseSize(f[i0..]).0, args[a0..]).Some?
    ensures i0 <= i <= |f| && a0 <= a <= |args|
    ensures f[i..] == ParseSize(f[i0..]).1
    ensures Taken(ParseSize(f[i0..]).0, args[a0..]) == Some((n, args[a..]))
  {
    hide Decimal;
    n, i, a := 0, i0, a0;
    if IsDigit(At(f, i)) {
      n, i := Atoi(f, i);
      assert f[i0..][DigitRun(f[i0..])..] == f[i..];
    } else if At(f, i) == '*' {
      n := Signed(args[a].bits, U32);
      i := i + 1;
      a := a + 1;
      assert f[i0..][1..] == f[i..] && args[a0..][1..] == args[a..];
    }
  }

  /** The length field. */
  method EvaluateLength(f: string, i0: nat) returns (length: Length, i: nat)
    requires i0 <= |f| && NoNul(f)
    ensures i0 <= i <= |f| && (length, f[i..]) == ParseLength(f[i0..])
  {
    length, i := IntLength, i0;
    match At(f, i)
    case 'l' =>
      length := LongLength;
      i := i + 1;
      if At(f, i) == 'l' {
        i := i + 1;
      }
    case 'h' =>
      length := ShortLength;
      i := i + 1;
      if At(f, i) == 'h' {
        length := CharLength;
        i := i + 1;
      }
    case 't' =>
      length := LongLength;
      i := i + 1;
    case 'j' =>
      length := LongLength;
      i := i + 1;
    case 'z' =>
      length := LongLength;
      i := i + 1;
    case _ =>
    assert f[i..] == f[i0..][i - i0..];
  }

  /** `*format`: the NUL sits right after the format's characters. */
  function At(f: string, i: nat): char
    requires i <= |f|
  {
    if i < |f| then f[i] else '\0'
  }

  /** `_atoi`, which advances the format position. */
  method Atoi(f: string, i0: nat) returns (n: u32, i: nat)
    requires i0 <= |f|
    ensures i == i0 + DigitRun(f[i0..]) && i <= |f|
    ensures forall k :: 0 <= k < DigitRun(f[i0..]) ==> IsDigit(f[i0..][k])
    ensures n == Decimal(f[i0..][..DigitRun(f[i0..])]) % U32
  {
    DigitRunIsDigits(f[i0..]);
    ghost var run := f[i0..][..DigitRun(f[i0..])];
    n, i := 0, i0;
    while IsDigit(At(f, i))
      invariant i0 <= i <= i0 + |run| <= |f|
      invariant forall k :: 0 <= k < |run| ==> IsDigit(run[k])
      invariant n == Decimal(run[..i - i0]) % U32
      decreases |f| - i
    {
      assert i < i0 + |run|;
      ghost var k := i - i0;
      assert run[..k + 1][..k] == run[..k] && run[k] == f[i];
      assert Decimal(run[..k + 1]) == 10 * Decimal(run[..k]) + (f[i] as int - '0' as int);
      ModStep(Decimal(run[..k]), f[i] as int - '0' as int);
      n := (n * 10 % U32 + (f[i] as int - '0' as int)) % U32;
      i := i + 1;
    }
    assert run[..|run|] == run;
  }

  lemma ModStep(x: nat, d: nat)
    ensures (x % U32 * 10 % U32 + d) % U32 == (10 * x + d) % U32
  {
    var q := x / U32;
    assert x == q * U32 + x % U32;
    assert (10 * x + d) == (10 * q) * U32 + (x % U32 * 10 + d);
  }

  /** `snprintf_`: the length is that of the whole text, whatever the limit.  NULL discards the text. */
  method Snprintf(buffer: array?<char>, count: nat, f: string, args: seq<Arg>) returns (ret: int)
    requires NoNul(f) && ArgsOk(args) && TextOf(f, args).Some? && count < U64
    requires buffer == null || count <= buffer.Length || |TextOf(f, args).value| < buffer.Length
    modifies if buffer == null then {} else {buffer}
    ensures ret == Signed(|TextOf(f, args).value|, U32)
    ensures buffer != null ==> buffer[..] == Terminated(old(buffer[..]), TextOf(f, args).value, count)
  {
    var out: Output;
    if buffer == null {
      var nowhere := new char[0];
      out := new Output(Discard, count, nowhere, "");
    } else {
      out := new Output(ToBuffer, count, buffer, "");
    }
    ret := out.Vsnprintf(f, args);
  }

  /** `printf_`: every character but NUL goes to the console, in order. */
  method PrintfToConsole(console: string, f: string, args: seq<Arg>) returns (after: string, ret: int)
    requires NoNul(f) && ArgsOk(args) && TextOf(f, args).Some?
    ensures after == console + NonNul(TextOf(f, args).value)
    ensures ret == Signed(|TextOf(f, args).value|, U32)
  {
    var buffer := new char[1];
    var out := new Output(ToConsole, 0xffff_ffff_ffff_ffff, buffer, console);
    ret := out.Vsnprintf(f, args);
    after := out.console;
  }
}
