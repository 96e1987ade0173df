/**
  vsnprintf_ of kernel/src/lib/printf.c: the loops that read the format and write a bounded buffer. Every
  output goes through one function that drops what does not fit, so the text is that of PrintfSpec.Render
  whatever the bound.
 */
module Printf {
  import opened PrintfSpec

  /** A buffer after `text` was output from index idx on, with limit maxlen. */
  ghost predicate Written(before: seq<char>, after: seq<char>, idx: nat, maxlen: nat, text: string) {
    |after| == |before| && forall k :: 0 <= k < |before| ==>
      after[k] == if idx <= k < idx + |text| && k < maxlen then text[k - idx] else before[k]
  }

  lemma WrittenNothing(before: seq<char>, idx: nat, maxlen: nat)
    ensures Written(before, before, idx, maxlen, [])
  {}

  lemma WrittenTwice(b0: seq<char>, b1: seq<char>, b2: seq<char>, idx: nat, maxlen: nat, s: string, t: string)
    requires Written(b0, b1, idx, maxlen, s) && Written(b1, b2, idx + |s|, maxlen, t)
    ensures Written(b0, b2, idx, maxlen, s + t)
  {}

  /** _out_buffer */
  method Out(c: char, buffer: array<char>, idx: nat, maxlen: nat)
    requires maxlen <= buffer.Length
    modifies buffer
    ensures Written(old(buffer[..]), buffer[..], idx, maxlen, [c])
  {
    if idx < maxlen {
      buffer[idx] := c;
    }
  }

  /** Writes n spaces. */
  method Spaces(buffer: array<char>, idx0: nat, maxlen: nat, n: int) returns (idx: nat)
    requires maxlen <= buffer.Length
    modifies buffer
    ensures idx == idx0 + |Repeat(' ', n)| && Written(old(buffer[..]), buffer[..], idx0, maxlen, Repeat(' ', n))
  {
    idx := idx0;
    var i := 0;
    while i < n
      invariant 0 <= i && (i <= n || (n < 0 && i == 0)) && idx == idx0 + |Repeat(' ', i)|
      invariant Written(old(buffer[..]), buffer[..], idx0, maxlen, Repeat(' ', i))
    {
      ghost var b := buffer[..];
      Out(' ', buffer, idx, maxlen);
      WrittenTwice(old(buffer[..]), b, buffer[..], idx0, maxlen, Repeat(' ', i), [' ']);
      idx := idx + 1;
      i := i + 1;
    }
  }

  /** The loop of _out_rev that reads the conversion buffer from its end. */
  method OutReversed(buffer: array<char>, idx0: nat, maxlen: nat, buf: array<char>, len0: nat) returns (idx: nat)
    requires maxlen <= buffer.Length && len0 <= buf.Length && buf != buffer
    modifies buffer
    ensures idx == idx0 + len0 && Written(old(buffer[..]), buffer[..], idx0, maxlen, Reverse(buf[..len0]))
  {
    hide Written, Reverse;
    idx := idx0;
    WrittenNothing(buffer[..], idx0, maxlen);
    var len: nat := len0;
    ghost var done := [];
    while len > 0
      invariant len <= len0 && done + Reverse(buf[..len]) == Reverse(buf[..len0]) && buf[..] == old(buf[..])
      invariant idx == idx0 + |done| == idx0 + len0 - len && Written(old(buffer[..]), buffer[..], idx0, maxlen, done)
    {
      len := len - 1;
      ReverseStep(buf[..], len);
      ghost var b := buffer[..];
      Out(buf[len], buffer, idx, maxlen);
      WrittenTwice(old(buffer[..]), b, buffer[..], idx0, maxlen, done, [buf[len]]);
      idx := idx + 1;
      done := done + [buf[len]];
    }
    ReverseNone(buf[..]);
    assert done == Reverse(buf[..len0]);
  }

  lemma ReverseStep(s: string, len: nat)
    requires len < |s|
    ensures Reverse(s[..len + 1]) == [s[len]] + Reverse(s[..len])
  {
    assert s[..len + 1][..len] == s[..len];
  }

  lemma ReverseNone(s: string)
    ensures Reverse(s[..0]) == []
  {}

  /** _out_rev */
  method OutRev(buffer: array<char>, idx0: nat, maxlen: nat, buf: array<char>, len: nat, width: nat, f: Flags)
      returns (idx: nat)
    requires maxlen <= buffer.Length && len <= buf.Length && buf != buffer
    modifies buffer
    ensures idx == idx0 + |Padded(buf[..len], width, f)|
    ensures Written(old(buffer[..]), buffer[..], idx0, maxlen, Padded(buf[..len], width, f))
  {
    hide Written, Reverse, Repeat;
    ghost var b0, text := buffer[..], Reverse(buf[..len]);
    ghost var pre, post := Repeat(' ', if !f.left && !f.zeropad then width - len else 0),
        Repeat(' ', if f.left then width - len else 0);
    idx := idx0;
    WrittenNothing(b0, idx0, maxlen);
    if !f.left && !f.zeropad {
      idx := Spaces(buffer, idx, maxlen, width - len);
    }
    ghost var b1 := buffer[..];
    idx := OutReversed(buffer, idx, maxlen, buf, len);
    WrittenTwice(b0, b1, buffer[..], idx0, maxlen, pre, text);
    ghost var b2 := buffer[..];
    WrittenNothing(b2, idx, maxlen);
    if f.left {
      assert idx == idx0 + len;
      idx := Spaces(buffer, idx, maxlen, width - (idx - idx0));
    }
    WrittenTwice(b0, b2, buffer[..], idx0, maxlen, pre + text, post);
  }

  /** Appends to the conversion buffer while there is room below the target. */
  method Fill(buf: array<char>, len0: nat, target: nat) returns (len: nat)
    requires len0 <= buf.Length == NTOA_BUFFER
    modifies buf
    ensures len <= NTOA_BUFFER && buf[..len] == ZeroFill(old(buf[..len0]), target)
  {
    len := len0;
    var n := 0;
    while len < target && len < NTOA_BUFFER
      invariant len == len0 + n && len <= NTOA_BUFFER && (len <= target || n == 0)
      invariant buf[..len] == old(buf[..len0]) + Repeat('0', n)
    {
      buf[len] := '0';
      len := len + 1;
      n := n + 1;
    }
    RepeatNone('0', (if target < NTOA_BUFFER then target else NTOA_BUFFER) - len0);
  }

  lemma RepeatNone(c: char, n: int)
    ensures n <= 0 ==> Repeat(c, n) == []
    ensures Repeat(c, 0) == []
  {}

  method PutChar(buf: array<char>, len0: nat, c: char) returns (len: nat)
    requires len0 <= buf.Length == NTOA_BUFFER
    modifies buf
    ensures len <= NTOA_BUFFER && buf[..len] == Put(old(buf[..len0]), c)
  {
    len := len0;
    if len < NTOA_BUFFER {
      buf[len] := c;
      len := len + 1;
    }
  }

  /** The part of _ntoa_format that handles the # flag. */
  method Hash(buf: array<char>, len0: nat, base: nat, prec: nat, width: nat, f: Flags) returns (len: nat)
    requires len0 <= buf.Length == NTOA_BUFFER
    modifies buf
    ensures len <= NTOA_BUFFER && buf[..len] == Hashed(old(buf[..len0]), base, prec, width, f)
  {
    len := len0;
    if !f.precision && len > 0 && (len == prec || len == width) {
      len := len - 1;
      if len > 0 && base == 16 {
        len := len - 1;
      }
    }
    assert buf[..len] == buf[..len0][..len];
    if base == 16 && !f.uppercase {
      len := PutChar(buf, len, 'x');
    } else if base == 16 && f.uppercase {
      len := PutChar(buf, len, 'X');
    } else if base == 2 {
      len := PutChar(buf, len, 'b');
    }
    len := PutChar(buf, len, '0');
  }

  /** _ntoa_format */
  method NtoaFormat(buffer: array<char>, idx0: nat, maxlen: nat, buf: array<char>, len0: nat, negative: bool,
      base: nat, prec: nat, width0: nat, f: Flags) returns (idx: nat)
    requires maxlen <= buffer.Length && len0 <= buf.Length == NTOA_BUFFER && buf != buffer
    modifies buffer, buf
    ensures var text := Formatted(old(buf[..len0]), negative, base, prec, width0, f);
      idx == idx0 + |text| && Written(old(buffer[..]), buffer[..], idx0, maxlen, text)
  {
    hide Written, Repeat, Reverse, Padded, ZeroFill, Hashed;
    var len, width := len0, width0;
    if !f.left {
      if width > 0 && f.zeropad && (negative || f.plus || f.space) {
        width := width - 1;
      }
      len := Fill(buf, len, prec);
      if f.zeropad {
        len := Fill(buf, len, width);
      }
    }
    if f.hash {
      len := Hash(buf, len, base, prec, width, f);
    }
    if len < NTOA_BUFFER {
      if negative {
        len := PutChar(buf, len, '-');
      } else if f.plus {
        len := PutChar(buf, len, '+');
      } else if f.space {
        len := PutChar(buf, len, ' ');
      }
    }
    idx := OutRev(buffer, idx0, maxlen, buf, len, width, f);
  }

  /** One more digit, and the rest. */
  lemma DigitsStep(v: nat, base: nat, upper: bool, room: nat)
    requires 2 <= base <= 16 && room > 0
    ensures v / base >= 0 && 0 <= v % base < base
    ensures Digits(v, base, upper, room) ==
      [DigitChar(v % base, upper)] + if v / base != 0 && room > 1 then Digits(v / base, base, upper, room - 1) else []
  {}

  /** One more digit after those so far. */
  lemma DigitsMore(all: string, sofar: string, v: nat, base: nat, upper: bool, room: nat)
    requires 2 <= base <= 16 && room > 0 && all == sofar + Digits(v, base, upper, room)
    ensures 0 <= v / base && 0 <= v % base < base
    ensures all == sofar + [DigitChar(v % base, upper)] +
        if v / base != 0 && room > 1 then Digits(v / base, base, upper, room - 1) else []
  {
    hide Digits, DigitChar;
    DigitsStep(v, base, upper, room);
  }

  /** The do-while loop of _ntoa_long and _ntoa_long_long. */
  method Convert(buf: array<char>, value0: nat, base: nat, upper: bool) returns (len: nat)
    requires buf.Length == NTOA_BUFFER && 2 <= base <= 16
    modifies buf
    ensures len <= NTOA_BUFFER && buf[..len] == Digits(value0, base, upper, NTOA_BUFFER)
  {
    hide Digits, DigitChar;
    var value: nat := value0;
    len := 0;
    var more := true;
    assert buf[..0] == [];
    while more
      invariant len <= NTOA_BUFFER && (more ==> len < NTOA_BUFFER)
      invariant Digits(value0, base, upper, NTOA_BUFFER) ==
          buf[..len] + if more then Digits(value, base, upper, NTOA_BUFFER - len) else []
      decreases more, NTOA_BUFFER - len
    {
      ghost var sofar := buf[..len];
      DigitsMore(Digits(value0, base, upper, NTOA_BUFFER), sofar, value, base, upper, NTOA_BUFFER - len);
      buf[len] := DigitChar(value % base, upper);
      len := len + 1;
      assert buf[..len] == sofar + [DigitChar(value % base, upper)];
      value := value / base;
      more := value != 0 && len < NTOA_BUFFER;
    }
  }

  /** The text, once the digits are there and # is dropped for 0. */
  lemma NtoaText(value: nat, negative: bool, base: nat, prec: nat, width: nat, flags: Flags, f: Flags, digits: string)
    requires 2 <= base <= 16 && f == (if value == 0 then flags.(hash := false) else flags)
    requires digits == if f.precision && value == 0 then [] else Digits(value, base, f.uppercase, NTOA_BUFFER)
    ensures Formatted(digits, negative, base, prec, width, f) == Ntoa(value, negative, base, prec, width, flags)
  {
    hide Formatted, Digits;
  }

  /** _ntoa_long and _ntoa_long_long, which differ only in types of equal width. */
  method NtoaLong(buffer: array<char>, idx0: nat, maxlen: nat, value: nat, negative: bool, base: nat, prec: nat,
      width: nat, flags: Flags) returns (idx: nat)
    requires maxlen <= buffer.Length && 2 <= base <= 16
    modifies buffer
    ensures var text := Ntoa(value, negative, base, prec, width, flags);
      idx == idx0 + |text| && Written(old(buffer[..]), buffer[..], idx0, maxlen, text)
  {
    hide Formatted, Digits, Written, Ntoa;
    var buf := new char[NTOA_BUFFER];
    var len, f := 0, flags;
    if value == 0 {
      f := f.(hash := false);
    }
    if !f.precision || value != 0 {
      len := Convert(buf, value, base, f.uppercase);
    }
    NtoaText(value, negative, base, prec, width, flags, f, buf[..len]);
    idx := NtoaFormat(buffer, idx0, maxlen, buf, len, negative, base, prec, width, f);
  }

  /** The %c conversion. */
  method CharOut(buffer: array<char>, idx0: nat, maxlen: nat, n: int, conv: Conv) returns (idx: nat)
    requires maxlen <= buffer.Length
    modifies buffer
    ensures idx == idx0 + |CharText(n, conv)| && Written(old(buffer[..]), buffer[..], idx0, maxlen, CharText(n, conv))
  {
    ghost var b0 := buffer[..];
    ghost var pre := Repeat(' ', if conv.flags.left then 0 else conv.width - 1);
    WrittenNothing(b0, idx0, maxlen);
    idx := idx0;
    if !conv.flags.left {
      idx := Spaces(buffer, idx, maxlen, conv.width - 1);
    }
    ghost var b1 := buffer[..];
    var c := (n % 256) as char;
    Out(c, buffer, idx, maxlen);
    WrittenTwice(b0, b1, buffer[..], idx0, maxlen, pre, [c]);
    idx := idx + 1;
    ghost var b2 := buffer[..];
    WrittenNothing(b2, idx, maxlen);
    if conv.flags.left {
      idx := Spaces(buffer, idx, maxlen, conv.width - 1);
    }
    WrittenTwice(b0, b2, buffer[..], idx0, maxlen, pre + [c],
        Repeat(' ', if conv.flags.left then conv.width - 1 else 0));
  }

  /** The output loop of %s. */
  method OutString(buffer: array<char>, idx0: nat, maxlen: nat, s: string, limited: bool, prec: nat) returns (idx: nat)
    requires maxlen <= buffer.Length
    modifies buffer
    ensures var t := if limited && prec < |CString(s)| then CString(s)[..prec] else CString(s);
      idx == idx0 + |t| && Written(old(buffer[..]), buffer[..], idx0, maxlen, t)
  {
    hide Written, CString;
    CStringAt(s);
    ghost var c := CString(s);
    idx := idx0;
    WrittenNothing(buffer[..], idx0, maxlen);
    var p: nat, precision: nat := 0, prec;
    assert c[..0] == [];
    while At(s, p) != '\0' && (!limited || precision > 0)
      invariant p <= |c| && (limited ==> precision == prec - p)
      invariant idx == idx0 + p && Written(old(buffer[..]), buffer[..], idx0, maxlen, c[..p])
      decreases |c| - p
    {
      ghost var b := buffer[..];
      Out(At(s, p), buffer, idx, maxlen);
      WrittenTwice(old(buffer[..]), b, buffer[..], idx0, maxlen, c[..p], [At(s, p)]);
      assert c[..p] + [At(s, p)] == c[..p + 1];
      if limited { precision := precision - 1; }
      p := p + 1;
      idx := idx + 1;
    }
    assert c[..|c|] == c;
  }

  /** The %s conversion. */
  method StringOut(buffer: array<char>, idx0: nat, maxlen: nat, s: string, conv: Conv) returns (idx: nat)
    requires maxlen <= buffer.Length && (conv.prec > 0 ==> conv.flags.precision)
    modifies buffer
    ensures idx == idx0 + |StringText(s, conv)| && Written(old(buffer[..]), buffer[..], idx0, maxlen,
        StringText(s, conv))
  {
    hide Written, Repeat, CString;
    ghost var b0, c := buffer[..], CString(s);
    ghost var t := if conv.flags.precision && conv.prec < |c| then c[..conv.prec] else c;
    ghost var pre, post := Repeat(' ', if conv.flags.left then 0 else conv.width - |t|),
        Repeat(' ', if conv.flags.left then conv.width - |t| else 0);
    WrittenNothing(b0, idx0, maxlen);
    CStringAt(s);
    var l := StrnLen(s, if conv.prec > 0 then conv.prec else |s|);
    if conv.flags.precision {
      l := if l < conv.prec then l else conv.prec;
    }
    idx := idx0;
    if !conv.flags.left {
      idx := Spaces(buffer, idx, maxlen, conv.width - l);
    }
    ghost var b1 := buffer[..];
    idx := OutString(buffer, idx, maxlen, s, conv.flags.precision, conv.prec);
    WrittenTwice(b0, b1, buffer[..], idx0, maxlen, pre, t);
    ghost var b2 := buffer[..];
    WrittenNothing(b2, idx, maxlen);
    if conv.flags.left {
      idx := Spaces(buffer, idx, maxlen, conv.width - l);
    }
    WrittenTwice(b0, b2, buffer[..], idx0, maxlen, pre + t, post);
  }

  lemma CStringAt(s: string)
    ensures |CString(s)| <= |s|
    ensures forall k :: 0 <= k <= |CString(s)| ==> (At(s, k) != '\0' <==> k < |CString(s)|)
    ensures forall k :: 0 <= k < |CString(s)| ==> At(s, k) == CString(s)[k]
  {
    var c := CString(s);
    forall k | 0 <= k < |c| ensures At(s, k) == c[k] && c[k] != '\0' {
      assert c[k] in c && s[..|c|][k] == s[k];
    }
  }

  /** _strnlen_s */
  method StrnLen(s: string, maxsize0: nat) returns (l: nat)
    ensures l == if maxsize0 < |CString(s)| then maxsize0 else |CString(s)|
  {
    CStringAt(s);
    var maxsize: nat := maxsize0;
    l := 0;
    while At(s, l) != '\0' && maxsize > 0
      invariant l <= |CString(s)| && maxsize + l == maxsize0
      decreases |s| - l
    {
      maxsize := maxsize - 1;
      l := l + 1;
    }
  }

  // ----- Reading -----

  /** The flags loop. */
  method ScanFlags(format: string, i0: nat) returns (conv: Conv)
    requires i0 <= |format|
    ensures forall a :: conv.(a := a) == ReadFlags(format, Conv(NO_FLAGS, 0, 0, i0, a))
  {
    conv := Conv(NO_FLAGS, 0, 0, i0, 0);
    var n := true;
    while n
      invariant conv.i <= |format| && conv.a == 0
      invariant ReadFlags(format, Conv(NO_FLAGS, 0, 0, i0, 0)) == if n then ReadFlags(format, conv) else conv
      decreases n, |format| - conv.i
    {
      var c := At(format, conv.i);
      var f := conv.flags;
      match c
      case '0' => conv := conv.(flags := f.(zeropad := true), i := conv.i + 1);
      case '-' => conv := conv.(flags := f.(left := true), i := conv.i + 1);
      case '+' => conv := conv.(flags := f.(plus := true), i := conv.i + 1);
      case ' ' => conv := conv.(flags := f.(space := true), i := conv.i + 1);
      case '#' => conv := conv.(flags := f.(hash := true), i := conv.i + 1);
      case _ => n := false;
    }
    forall a ensures conv.(a := a) == ReadFlags(format, Conv(NO_FLAGS, 0, 0, i0, a)) {
      FlagsIgnoreArguments(format, Conv(NO_FLAGS, 0, 0, i0, 0), a);
    }
  }

  lemma {:induction false} FlagsIgnoreArguments(format: string, c: Conv, a: nat)
    requires c.i <= |format|
    ensures ReadFlags(format, c.(a := a)) == ReadFlags(format, c).(a := a)
    decreases |format| - c.i
  {
    var f := WithFlag(At(format, c.i), c.flags);
    if f.Some? { FlagsIgnoreArguments(format, c.(flags := f.value, i := c.i + 1), a); }
  }

  /** _atoi */
  method Atoi(format: string, i0: nat) returns (n: nat, i: nat)
    requires i0 <= |format|
    ensures i0 <= i <= |format| && (n, i) == ReadNumber(format, i0, 0)
  {
    n, i := 0, i0;
    while IsDigit(At(format, i))
      invariant i0 <= i <= |format| && ReadNumber(format, i, n) == ReadNumber(format, i0, 0)
      decreases |format| - i
    {
      n := (n * 10 + (At(format, i) - '0') as nat) % UINT;
      i := i + 1;
    }
  }

  /** The width field. */
  method ScanWidth(format: string, args: seq<Arg>, conv0: Conv) returns (conv: Conv)
    requires conv0.i <= |format| && ReadWidth(format, args, conv0).Some?
    ensures conv == ReadWidth(format, args, conv0).value && conv.prec == conv0.prec
  {
    hide ReadNumber, SignedOf;
    conv := conv0;
    if IsDigit(At(format, conv.i)) {
      var n, i := Atoi(format, conv.i);
      conv := conv.(width := n, i := i);
    } else if At(format, conv.i) == '*' {
      var w := SignedOf(args[conv.a].n, 0x8000_0000);
      if w < 0 {
        conv := conv.(flags := conv.flags.(left := true), width := -w);
      } else {
        conv := conv.(width := w);
      }
      conv := conv.(i := conv.i + 1, a := conv.a + 1);
    }
  }

  /** The precision field. */
  method ScanPrecision(format: string, args: seq<Arg>, conv0: Conv) returns (conv: Conv)
    requires conv0.i <= |format| && ReadPrecision(format, args, conv0).Some? && conv0.prec == 0
    ensures conv == ReadPrecision(format, args, conv0).value && (conv.prec > 0 ==> conv.flags.precision)
  {
    hide ReadNumber, SignedOf;
    conv := conv0;
    if At(format, conv.i) == '.' {
      conv := conv.(flags := conv.flags.(precision := true), i := conv.i + 1);
      if IsDigit(At(format, conv.i)) {
        var n, i := Atoi(format, conv.i);
        conv := conv.(prec := n, i := i);
      } else if At(format, conv.i) == '*' {
        var p := SignedOf(args[conv.a].n, 0x8000_0000);
        conv := conv.(prec := if p > 0 then p else 0, i := conv.i + 1, a := conv.a + 1);
      }
    }
  }

  /** The length field; ptrdiff_t, intmax_t and size_t are as wide as long. */
  method ScanLength(format: string, conv0: Conv) returns (conv: Conv)
    requires conv0.i <= |format|
    ensures conv == ReadLength(format, conv0) && conv.prec == conv0.prec &&
        conv.flags.precision == conv0.flags.precision
  {
    conv := conv0;
    match At(format, conv.i)
    case 'l' =>
      conv := conv.(flags := conv.flags.(isLong := true), i := conv.i + 1);
      if At(format, conv.i) == 'l' {
        conv := conv.(flags := conv.flags.(isLongLong := true), i := conv.i + 1);
      }
    case 'h' =>
      conv := conv.(flags := conv.flags.(isShort := true), i := conv.i + 1);
      if At(format, conv.i) == 'h' {
        conv := conv.(flags := conv.flags.(isChar := true), i := conv.i + 1);
      }
    case 't' => conv := conv.(flags := conv.flags.(isLong := true), i := conv.i + 1);
    case 'j' => conv := conv.(flags := conv.flags.(isLong := true), i := conv.i + 1);
    case 'z' => conv := conv.(flags := conv.flags.(isLong := true), i := conv.i + 1);
    case _ =>
  }

  /** Flags, width, precision and length; the format and the arguments must have them. */
  method ScanConversion(format: string, args: seq<Arg>, i0: nat, a0: nat) returns (conv: Conv)
    requires i0 <= |format| && ReadConversion(format, args, i0, a0).Some?
    ensures conv == ReadConversion(format, args, i0, a0).value && (conv.prec > 0 ==> conv.flags.precision)
  {
    hide ReadFlags, ReadWidth, ReadPrecision, ReadLength;
    conv := ScanFlags(format, i0);
    FlagsOnly(format, Conv(NO_FLAGS, 0, 0, i0, a0));
    conv := ScanWidth(format, args, conv.(a := a0));
    conv := ScanPrecision(format, args, conv);
    conv := ScanLength(format, conv);
  }

  lemma {:induction false} FlagsOnly(format: string, c: Conv)
    requires c.i <= |format|
    ensures var c' := ReadFlags(format, c); c'.width == c.width && c'.prec == c.prec && c'.a == c.a
    decreases |format| - c.i
  {
    var f := WithFlag(At(format, c.i), c.flags);
    if f.Some? { FlagsOnly(format, c.(flags := f.value, i := c.i + 1)); }
  }

  // ----- The whole -----

  /** va_arg and its casts, by length modifier. */
  method LoadInteger(c: char, n: int, flags: Flags) returns (value: int)
    ensures value == IntegerValue(c, n, flags)
  {
    if c == 'i' || c == 'd' {
      if flags.isLongLong || flags.isLong {
        value := SignedOf(n, 0x8000_0000_0000_0000);
      } else {
        value := if flags.isChar then SignedOf(n, 0x80) else if flags.isShort then SignedOf(n, 0x8000)
            else SignedOf(n, 0x8000_0000);
      }
    } else if flags.isLongLong || flags.isLong {
      value := n % 0x1_0000_0000_0000_0000;
    } else {
      value := if flags.isChar then n % 0x100 else if flags.isShort then n % 0x1_0000 else n % UINT;
    }
  }

  /** The base of an integer conversion; # is dropped for decimals. */
  method SetBase(c: char, flags0: Flags) returns (base: nat, flags: Flags)
    ensures base == BaseOf(c) && flags == WithoutHash(c, flags0)
  {
    flags, base := flags0, 10;
    if c == 'x' || c == 'X' {
      base := 16;
    } else if c == 'o' {
      base := 8;
    } else if c == 'b' {
      base := 2;
    } else {
      flags := flags.(hash := false);
    }
  }

  /** The base and the flags of an integer conversion. */
  method SetUpInteger(c: char, flags0: Flags) returns (base: nat, flags: Flags)
    ensures base == BaseOf(c) && flags == WithoutSign(c, WithCase(c, WithoutHash(c, flags0)))
  {
    hide WithoutHash, BaseOf;
    base, flags := SetBase(c, flags0);
    if c == 'X' { flags := flags.(uppercase := true); }
    if c != 'i' && c != 'd' { flags := flags.(plus := false, space := false); }
  }

  /** The integer conversions. */
  method IntegerOut(buffer: array<char>, idx0: nat, maxlen: nat, c: char, n: int, conv: Conv) returns (idx: nat)
    requires maxlen <= buffer.Length && IsInteger(c)
    modifies buffer
    ensures idx == idx0 + |IntegerText(c, n, conv)| && Written(old(buffer[..]), buffer[..], idx0, maxlen,
        IntegerText(c, n, conv))
  {
    hide Written, Ntoa, IntegerValue, WithoutHash, WithCase, WithoutSign, BaseOf, IsInteger;
    var base, flags := SetUpInteger(c, conv.flags);
    if flags.precision { flags := flags.(zeropad := false); }
    var value := LoadInteger(c, n, conv.flags);
    var magnitude := if value > 0 then value else 0 - value;
    idx := NtoaLong(buffer, idx0, maxlen, magnitude, value < 0, base, conv.prec, conv.width, flags);
  }

  /** One conversion: writes its text and takes its argument. */
  method ConversionOut(buffer: array<char>, idx0: nat, maxlen: nat, format: string, args: seq<Arg>, conv: Conv)
      returns (idx: nat, a: nat)
    requires maxlen <= buffer.Length && ConversionText(format, args, conv).Some? &&
        (conv.prec > 0 ==> conv.flags.precision)
    modifies buffer
    ensures var text := ConversionText(format, args, conv).value;
      idx == idx0 + |text| && Written(old(buffer[..]), buffer[..], idx0, maxlen, text)
    ensures a == conv.a + if TakesArgument(At(format, conv.i)) then 1 else 0
  {
    hide Written, IntegerText, CharText, StringText, Ntoa;
    var c := At(format, conv.i);
    a := conv.a;
    if c in "diuxXob" {
      idx := IntegerOut(buffer, idx0, maxlen, c, args[a].n, conv);
      a := a + 1;
    } else if c == 'c' {
      idx := CharOut(buffer, idx0, maxlen, args[a].n, conv);
      a := a + 1;
    } else if c == 's' {
      idx := StringOut(buffer, idx0, maxlen, args[a].s, conv);
      a := a + 1;
    } else if c == 'p' {
      idx := NtoaLong(buffer, idx0, maxlen, args[a].n % 0x1_0000_0000_0000_0000, false, 16, conv.prec, 16,
        conv.flags.(zeropad := true, uppercase := true));
      a := a + 1;
    } else {
      Out(c, buffer, idx0, maxlen);
      idx := idx0 + 1;
    }
  }

  /**
    vsnprintf_ with a buffer: the result is the length of the unbounded text, cast to an int, whatever count is:
    exact for texts below 2^31 characters. The buffer gets the text's longest prefix that leaves room for a
    terminator, and the terminator; nothing else in it changes, and nothing at all when count is 0.
   */
  method Vsnprintf(buffer: array<char>, count: nat, format: string, args: seq<Arg>) returns (length: int)
    requires count <= buffer.Length && Render(format, args, 0, 0).Some?
    modifies buffer
    ensures var text := Render(format, args, 0, 0).value;
      && length == SignedOf(|text|, 0x8000_0000) && (|text| < 0x8000_0000 ==> length == |text|)
      && buffer[..] == Bounded(old(buffer[..]), count, text)
  {
    hide Written, ReadConversion, ConversionText, Render, SignedOf, Bounded;
    ghost var b0, text, done := buffer[..], Render(format, args, 0, 0).value, [];
    WrittenNothing(b0, 0, count);
    var i, idx, a := 0, 0, 0;
    while At(format, i) != '\0'
      invariant i <= |format| && Render(format, args, i, a).Some? && done + Render(format, args, i, a).value == text
      invariant idx == |done| && Written(b0, buffer[..], 0, count, done)
      decreases |format| - i
    {
      ghost var b := buffer[..];
      RenderStep(format, args, i, a);
      if At(format, i) != '%' {
        Out(At(format, i), buffer, idx, count);
        WrittenTwice(b0, b, buffer[..], 0, count, done, [format[i]]);
        done := done + [format[i]];
        i, idx := i + 1, idx + 1;
      } else {
        var conv := ScanConversion(format, args, i + 1, a);
        ghost var part := ConversionText(format, args, conv).value;
        idx, a := ConversionOut(buffer, idx, count, format, args, conv);
        WrittenTwice(b0, b, buffer[..], 0, count, done, part);
        done := done + part;
        i := conv.i + 1;
      }
    }
    RenderEnd(format, args, i, a);
    assert done + [] == done == text;
    ghost var b := buffer[..];
    var last := if idx < count then idx else if count > 0 then count - 1 else count;
    Out('\0', buffer, last, count);
    Terminated(b0, b, buffer[..], count, done, last);
    length := SignedOf(idx, 0x8000_0000);
    SmallEnough(idx);
  }

  lemma SmallEnough(n: nat)
    ensures n < 0x8000_0000 ==> SignedOf(n, 0x8000_0000) == n
  {}

  lemma RenderEnd(format: string, args: seq<Arg>, i: nat, a: nat)
    requires i <= |format| && At(format, i) == '\0'
    ensures Render(format, args, i, a) == Some([])
  {}

  lemma RenderStep(format: string, args: seq<Arg>, i: nat, a: nat)
    requires i <= |format| && At(format, i) != '\0' && Render(format, args, i, a).Some?
    ensures i < |format|
    ensures At(format, i) != '%' ==>
      && Render(format, args, i + 1, a).Some?
      && Render(format, args, i, a).value == [format[i]] + Render(format, args, i + 1, a).value
    ensures At(format, i) == '%' ==>
      && ReadConversion(format, args, i + 1, a).Some?
      && var conv := ReadConversion(format, args, i + 1, a).value;
         var a' := conv.a + if TakesArgument(At(format, conv.i)) then 1 else 0;
         && conv.i < |format| && ConversionText(format, args, conv).Some? && Render(format, args, conv.i + 1, a').Some?
         && Render(format, args, i, a).value == ConversionText(format, args, conv).value + Render(format, args,
             conv.i + 1, a').value
  {}

  /** What a buffer holds after a bounded print of text. */
  ghost function Bounded(before: seq<char>, count: nat, text: string): seq<char>
    requires count <= |before|
  {
    if count == 0 then before
    else
      var n := if |text| < count then |text| else count - 1;
      text[..n] + ['\0'] + before[n + 1..]
  }

  lemma Terminated(before: seq<char>, b: seq<char>, after: seq<char>, count: nat, text: string, last: nat)
    requires count <= |before| && Written(before, b, 0, count, text) && Written(b, after, last, count, ['\0'])
    requires last == if |text| < count then |text| else if count > 0 then count - 1 else count
    ensures after == Bounded(before, count, text)
  {}
}
