/**
  The text that the integer and string conversions of kernel/src/lib/printf.c describe, with no buffer and no
  limit: what a format and its arguments render to.
 */
module PrintfSpec {
  const NTOA_BUFFER := 32
  const UINT := 0x1_0000_0000

  datatype Option<+T> = None | Some(value: T)

  datatype Arg = Num(n: int) | Str(s: string)

  datatype Flags = Flags(zeropad: bool, left: bool, plus: bool, space: bool, hash: bool, uppercase: bool,
                         isChar: bool, isShort: bool, isLong: bool, isLongLong: bool, precision: bool)

  const NO_FLAGS := Flags(false, false, false, false, false, false, false, false, false, false, false)

  /** A conversion being read: position i in the format, argument a. */
  datatype Conv = Conv(flags: Flags, width: nat, prec: nat, i: nat, a: nat)

  /** The character at position i; the terminator at the end. */
  function At(format: string, i: nat): char {
    if i < |format| then format[i] else '\0'
  }

  predicate IsDigit(c: char) { '0' <= c <= '9' }

  function Repeat(c: char, n: int): (s: string)
    ensures |s| == if n > 0 then n else 0
    ensures forall k :: 0 <= k < |s| ==> s[k] == c
    decreases if n > 0 then n else 0
  {
    if n <= 0 then [] else Repeat(c, n - 1) + [c]
  }

  function Reverse(s: string): (r: string)
    ensures |r| == |s|
  {
    if s == [] then [] else [s[|s| - 1]] + Reverse(s[..|s| - 1])
  }

  // ----- Integers -----

  function DigitChar(d: nat, upper: bool): char
    requires d < 16
  {
    if d < 10 then '0' + d as char else if upper then 'A' + (d - 10) as char else 'a' + (d - 10) as char
  }

  /** The digits of v, lowest first, as far as there is room. */
  function Digits(v: nat, base: nat, upper: bool, room: nat): (s: string)
    requires 2 <= base <= 16 && room > 0
    ensures 0 < |s| <= room
    decreases room
  {
    [DigitChar(v % base, upper)] + if v / base != 0 && room > 1 then Digits(v / base, base, upper, room - 1) else []
  }

  function ZeroFill(buf: string, target: nat): string {
    buf + Repeat('0', (if target < NTOA_BUFFER then target else NTOA_BUFFER) - |buf|)
  }

  function Put(buf: string, c: char): string {
    if |buf| < NTOA_BUFFER then buf + [c] else buf
  }

  /** The width left for digits and padding once a sign is accounted for. */
  function DigitWidth(negative: bool, width: nat, f: Flags): nat {
    if !f.left && width > 0 && f.zeropad && (negative || f.plus || f.space) then width - 1 else width
  }

  function Hashed(buf: string, base: nat, prec: nat, width: nat, f: Flags): string {
    var b :=
      if !f.precision && buf != [] && (|buf| == prec || |buf| == width) then
        if |buf| > 1 && base == 16 then buf[..|buf| - 2] else buf[..|buf| - 1]
      else buf;
    var x :=
      if base == 16 then Put(b, if f.uppercase then 'X' else 'x')
      else if base == 2 then Put(b, 'b')
      else b;
    Put(x, '0')
  }

  function Signed(buf: string, negative: bool, f: Flags): string {
    if negative then Put(buf, '-')
    else if f.plus then Put(buf, '+')
    else if f.space then Put(buf, ' ')
    else buf
  }

  /** The reversed field without its outer padding. */
  function FieldBody(buf: string, negative: bool, base: nat, prec: nat, width: nat, f: Flags): string {
    var w := DigitWidth(negative, width, f);
    var filled := if f.left then buf else if f.zeropad then ZeroFill(ZeroFill(buf, prec), w) else ZeroFill(buf, prec);
    Signed(if f.hash then Hashed(filled, base, prec, w, f) else filled, negative, f)
  }

  /** The field in reading order, padded with spaces on one side. */
  function Padded(buf: string, width: nat, f: Flags): string {
    Repeat(' ', if !f.left && !f.zeropad then width - |buf| else 0) + Reverse(buf)
    + Repeat(' ', if f.left then width - |buf| else 0)
  }

  function Formatted(buf: string, negative: bool, base: nat, prec: nat, width: nat, f: Flags): string {
    Padded(FieldBody(buf, negative, base, prec, width, f), DigitWidth(negative, width, f), f)
  }

  function NoHashForZero(v: nat, f: Flags): Flags {
    if v == 0 then f.(hash := false) else f
  }

  function Converted(v: nat, base: nat, f: Flags): string
    requires 2 <= base <= 16
  {
    if f.precision && v == 0 then [] else Digits(v, base, f.uppercase, NTOA_BUFFER)
  }

  function Ntoa(v: nat, negative: bool, base: nat, prec: nat, width: nat, f: Flags): string
    requires 2 <= base <= 16
  {
    Formatted(Converted(v, base, NoHashForZero(v, f)), negative, base, prec, width, NoHashForZero(v, f))
  }

  /** n as a two's complement number of 2 * half values. */
  function SignedOf(n: int, half: nat): (v: int)
    requires half > 0
    ensures 0 - half <= v < half
  {
    (n + half) % (2 * half) - half
  }

  function BaseOf(c: char): (b: nat)
    ensures 2 <= b <= 16
  {
    if c == 'x' || c == 'X' then 16 else if c == 'o' then 8 else if c == 'b' then 2 else 10
  }

  predicate IsSigned(c: char) { c == 'd' || c == 'i' }

  /** The flags that hold for an integer conversion. */
  function IntegerFlags(c: char, f: Flags): Flags {
    WithoutPadding(WithoutSign(c, WithCase(c, WithoutHash(c, f))))
  }

  function WithoutHash(c: char, f: Flags): Flags { if BaseOf(c) == 10 then f.(hash := false) else f }

  function WithCase(c: char, f: Flags): Flags { if c == 'X' then f.(uppercase := true) else f }

  function WithoutSign(c: char, f: Flags): Flags { if IsSigned(c) then f else f.(plus := false, space := false) }

  function WithoutPadding(f: Flags): Flags { if f.precision then f.(zeropad := false) else f }

  /** What va_arg and the casts of the length modifiers make of an argument. */
  function IntegerValue(c: char, n: int, f: Flags): int {
    if IsSigned(c) then
      if f.isLongLong || f.isLong then SignedOf(n, 0x8000_0000_0000_0000)
      else if f.isChar then SignedOf(n, 0x80)
      else if f.isShort then SignedOf(n, 0x8000)
      else SignedOf(n, 0x8000_0000)
    else
      if f.isLongLong || f.isLong then n % 0x1_0000_0000_0000_0000
      else if f.isChar then n % 0x100
      else if f.isShort then n % 0x1_0000
      else n % UINT
  }

  function IntegerText(c: char, n: int, conv: Conv): string {
    var v := IntegerValue(c, n, conv.flags);
    Ntoa(if v > 0 then v else 0 - v, v < 0, BaseOf(c), conv.prec, conv.width, IntegerFlags(c, conv.flags))
  }

  function PointerText(n: int, conv: Conv): string {
    Ntoa(n % 0x1_0000_0000_0000_0000, false, 16, conv.prec, 16, conv.flags.(zeropad := true, uppercase := true))
  }

  // ----- Characters and strings -----

  function CharText(n: int, conv: Conv): string {
    Repeat(' ', if conv.flags.left then 0 else conv.width - 1) + [(n % 256) as char]
    + Repeat(' ', if conv.flags.left then conv.width - 1 else 0)
  }

  /** A C string: up to its terminator. */
  function CString(s: string): (r: string)
    ensures |r| <= |s| && r == s[..|r|] && '\0' !in r && (|r| < |s| ==> s[|r|] == '\0')
  {
    if s == [] || s[0] == '\0' then [] else [s[0]] + CString(s[1..])
  }

  function StringText(s: string, conv: Conv): string {
    var c := CString(s);
    var t := if conv.flags.precision && conv.prec < |c| then c[..conv.prec] else c;
    Repeat(' ', if conv.flags.left then 0 else conv.width - |t|) + t
    + Repeat(' ', if conv.flags.left then conv.width - |t| else 0)
  }

  // ----- Reading a conversion -----

  function WithFlag(c: char, f: Flags): Option<Flags> {
    if c == '0' then Some(f.(zeropad := true))
    else if c == '-' then Some(f.(left := true))
    else if c == '+' then Some(f.(plus := true))
    else if c == ' ' then Some(f.(space := true))
    else if c == '#' then Some(f.(hash := true))
    else None
  }

  function ReadFlags(format: string, c: Conv): (c': Conv)
    requires c.i <= |format|
    ensures c.i <= c'.i <= |format| && c'.a == c.a
    decreases |format| - c.i
  {
    var f := WithFlag(At(format, c.i), c.flags);
    if f.None? then c else ReadFlags(format, c.(flags := f.value, i := c.i + 1))
  }

  /** _atoi: a decimal number modulo 2^32, and where it ends. */
  function ReadNumber(format: string, i: nat, n: nat): (r: (nat, nat))
    requires i <= |format|
    ensures i <= r.1 <= |format|
    decreases |format| - i
  {
    if IsDigit(At(format, i)) then ReadNumber(format, i + 1, (n * 10 + (At(format, i) - '0') as nat) % UINT) else (n, i)
  }

  function ReadWidth(format: string, args: seq<Arg>, c: Conv): (r: Option<Conv>)
    requires c.i <= |format|
    ensures r.Some? ==> c.i <= r.value.i <= |format|
  {
    if IsDigit(At(format, c.i)) then
      var (n, i) := ReadNumber(format, c.i, 0);
      Some(c.(width := n, i := i))
    else if At(format, c.i) == '*' then
      if c.a < |args| && args[c.a].Num? then
        var w := SignedOf(args[c.a].n, 0x8000_0000);
        Some(c.(width := if w < 0 then -w else w, flags := if w < 0 then c.flags.(left := true)
            else c.flags, i := c.i + 1, a := c.a + 1))
      else None
    else Some(c)
  }

  function ReadPrecision(format: string, args: seq<Arg>, c: Conv): (r: Option<Conv>)
    requires c.i <= |format|
    ensures r.Some? ==> c.i <= r.value.i <= |format|
  {
    if At(format, c.i) != '.' then Some(c)
    else
      var c1 := c.(flags := c.flags.(precision := true), i := c.i + 1);
      if IsDigit(At(format, c1.i)) then
        var (n, i) := ReadNumber(format, c1.i, 0);
        Some(c1.(prec := n, i := i))
      else if At(format, c1.i) == '*' then
        if c1.a < |args| && args[c1.a].Num? then
          var p := SignedOf(args[c1.a].n, 0x8000_0000);
          Some(c1.(prec := if p > 0 then p else 0, i := c1.i + 1, a := c1.a + 1))
        else None
      else Some(c1)
  }

  function ReadLength(format: string, c: Conv): (r: Conv)
    requires c.i <= |format|
    ensures c.i <= r.i <= |format| && r.a == c.a
  {
    var m := At(format, c.i);
    if m == 'l' then
      if At(format, c.i + 1) == 'l' then c.(flags := c.flags.(isLong := true, isLongLong := true), i := c.i + 2)
      else c.(flags := c.flags.(isLong := true), i := c.i + 1)
    else if m == 'h' then
      if At(format, c.i + 1) == 'h' then c.(flags := c.flags.(isShort := true, isChar := true), i := c.i + 2)
      else c.(flags := c.flags.(isShort := true), i := c.i + 1)
    else if m == 't' || m == 'j' || m == 'z' then c.(flags := c.flags.(isLong := true), i := c.i + 1)
    else c
  }

  /** Everything between the percent sign and the conversion character; None when an argument is missing. */
  function ReadConversion(format: string, args: seq<Arg>, i: nat, a: nat): (r: Option<Conv>)
    requires i <= |format|
    ensures r.Some? ==> i <= r.value.i <= |format|
  {
    var c1 := ReadWidth(format, args, ReadFlags(format, Conv(NO_FLAGS, 0, 0, i, a)));
    if c1.None? then None
    else
      var c2 := ReadPrecision(format, args, c1.value);
      if c2.None? then None else Some(ReadLength(format, c2.value))
  }

  predicate IsInteger(c: char) { c in "diuxXob" }

  /** The text of a conversion; None when its argument is missing or the format ends in it. */
  function ConversionText(format: string, args: seq<Arg>, conv: Conv): Option<string> {
    var c := At(format, conv.i);
    if c == '\0' then None
    else if IsInteger(c) || c == 'c' || c == 'p' then
      if conv.a < |args| && args[conv.a].Num? then
        var n := args[conv.a].n;
        Some(if IsInteger(c) then IntegerText(c, n, conv) else if c == 'c' then CharText(n, conv)
            else PointerText(n, conv))
      else None
    else if c == 's' then
      if conv.a < |args| && args[conv.a].Str? then Some(StringText(args[conv.a].s, conv)) else None
    else Some([c])
  }

  predicate TakesArgument(c: char) { IsInteger(c) || c == 'c' || c == 'p' || c == 's' }

  /** The whole output from position i of the format and argument a on. */
  function Render(format: string, args: seq<Arg>, i: nat, a: nat): Option<string>
    requires i <= |format|
    decreases |format| - i
  {
    if At(format, i) == '\0' then Some([])
    else if At(format, i) != '%' then
      var rest := Render(format, args, i + 1, a);
      if rest.None? then None else Some([format[i]] + rest.value)
    else
      var conv := ReadConversion(format, args, i + 1, a);
      if conv.None? then None
      else
        var text := ConversionText(format, args, conv.value);
        if text.None? then None
        else
          var rest := Render(format, args, conv.value.i + 1,
              conv.value.a + if TakesArgument(At(format, conv.value.i)) then 1 else 0);
          if rest.None? then None else Some(text.value + rest.value)
  }
}
