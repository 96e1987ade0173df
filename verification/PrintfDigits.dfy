/**
  What the integer conversions print: the digits parse back to the value, and the field is a sign, the digits
  and padding in the order the flags ask for.
 */
module PrintfDigits {
  import opened PrintfSpec

  /** The value of a digit character. */
  function DigitValue(c: char): nat {
    if '0' <= c <= '9' then (c - '0') as nat
    else if 'a' <= c <= 'f' then (c - 'a') as nat + 10
    else if 'A' <= c <= 'F' then (c - 'A') as nat + 10
    else 0
  }

  /** The number a string of digits denotes, most significant digit first. */
  function Parse(s: string, base: nat): nat {
    if s == [] then 0 else Parse(s[..|s| - 1], base) * base + DigitValue(s[|s| - 1])
  }

  lemma DigitRoundTrip(d: nat, upper: bool)
    requires d < 16
    ensures DigitValue(DigitChar(d, upper)) == d && (DigitChar(d, upper) == '0' <==> d == 0)
  {}

  function Pow8(n: nat): nat { if n == 0 then 1 else 8 * Pow8(n - 1) }

  lemma WordFits()
    ensures 0x1_0000_0000_0000_0000 < Pow8(22)
  {
    assert Pow8(2) == 64;
    assert Pow8(4) == 0x1000;
    assert Pow8(6) == 0x4_0000;
    assert Pow8(8) == 0x100_0000;
    assert Pow8(10) == 0x4000_0000;
    assert Pow8(12) == 0x10_0000_0000;
    assert Pow8(14) == 0x400_0000_0000;
    assert Pow8(16) == 0x1_0000_0000_0000;
    assert Pow8(18) == 0x40_0000_0000_0000;
    assert Pow8(20) == 0x1000_0000_0000_0000;
    assert Pow8(22) == 0x4_0000_0000_0000_0000;
  }

  lemma Quotient(v: nat, base: nat, bound: nat)
    requires base >= 8 && v < 8 * bound
    ensures v == v / base * base + v % base && v / base < bound
  {
    var q := v / base;
    assert q * 8 <= q * base by { MulMono(q, 8, base); }
  }

  lemma MulMono(q: nat, a: nat, b: nat)
    requires a <= b
    ensures q * a <= q * b
  {}

  /**
    The digits in reading order parse back to the value, are at most as many as the bound's, and do not start
    with a zero unless the value is 0.
   */
  lemma {:induction false} DigitsParse(v: nat, base: nat, upper: bool, room: nat, n: nat)
    requires 8 <= base <= 16 && 0 < n <= room && v < Pow8(n)
    ensures var s := Reverse(Digits(v, base, upper, room));
      && Parse(s, base) == v && 0 < |s| <= n && (s[0] == '0' ==> v == 0 && s == "0")
    decreases n
  {
    hide Parse, Reverse, Digits, Pow8;
    DigitsSplit(v, base, upper, room);
    QuotientBound(v, base, n);
    DigitRoundTrip(v % base, upper);
    if v / base != 0 {
      DigitsParse(v / base, base, upper, room - 1, n - 1);
      MoreDigits(Digits(v / base, base, upper, room - 1), DigitChar(v % base, upper), base);
    } else {
      OneDigit(DigitChar(v % base, upper), base);
    }
  }

  lemma DigitsSplit(v: nat, base: nat, upper: bool, room: nat)
    requires 8 <= base <= 16 && room > 0
    ensures 0 <= v % base < base && 0 <= v / base && v == v / base * base + v % base
    ensures Digits(v, base, upper, room) ==
      [DigitChar(v % base, upper)] + if v / base != 0 && room > 1 then Digits(v / base, base, upper, room - 1) else []
  {}

  lemma QuotientBound(v: nat, base: nat, n: nat)
    requires 8 <= base <= 16 && 0 < n && v < Pow8(n)
    ensures v / base < Pow8(n - 1) && (v / base != 0 ==> n > 1)
  {
    Quotient(v, base, Pow8(n - 1));
  }

  lemma MoreDigits(rest: string, c: char, base: nat)
    requires rest != []
    ensures Reverse([c] + rest) == Reverse(rest) + [c]
    ensures Parse(Reverse([c] + rest), base) == Parse(Reverse(rest), base) * base + DigitValue(c)
  {
    ReverseConcat([c], rest);
    ReverseOne(c);
    ParseMore(Reverse(rest), c, base);
  }

  lemma OneDigit(c: char, base: nat)
    ensures Reverse([c] + []) == [c] && Parse([c], base) == DigitValue(c)
  {
    ReverseOne(c);
    assert [c] + [] == [c];
    ParseMore([], c, base);
    assert [] + [c] == [c];
  }

  lemma ParseMore(s: string, c: char, base: nat)
    ensures Parse(s + [c], base) == Parse(s, base) * base + DigitValue(c)
  {
    assert (s + [c])[..|s|] == s;
  }

  lemma ReverseOne(c: char)
    ensures Reverse([c]) == [c]
  {
    assert [c][..0] == [];
  }

  lemma {:induction false} ReverseConcat(a: string, b: string)
    ensures Reverse(a + b) == Reverse(b) + Reverse(a)
  {
    if b == [] {
      assert a + b == a;
    } else {
      assert (a + b)[..|a + b| - 1] == a + b[..|b| - 1];
      ReverseConcat(a, b[..|b| - 1]);
    }
  }

  lemma {:induction false} ReverseRepeat(c: char, n: int)
    ensures Reverse(Repeat(c, n)) == Repeat(c, n)
    decreases if n > 0 then n else 0
  {
    if n > 0 {
      assert Repeat(c, n)[..n - 1] == Repeat(c, n - 1);
      ReverseRepeat(c, n - 1);
      RepeatFront(c, n - 1);
    }
  }

  lemma RepeatFront(c: char, n: int)
    ensures [c] + Repeat(c, n) == Repeat(c, n) + [c]
  {}

  /** The sign the flags ask for. */
  function Sign(negative: bool, f: Flags): string {
    if negative then "-" else if f.plus then "+" else if f.space then " " else ""
  }

  /** Whether n digits leave room for the sign in the buffer. */
  predicate Roomy(n: nat, negative: bool, f: Flags) { n <= 22 || (n <= NTOA_BUFFER && Sign(negative, f) == "") }

  /** The digits shown: those of the value, and none for 0 when a precision is given. */
  function Numeral(v: nat, base: nat, f: Flags): string
    requires 2 <= base <= 16
  {
    Reverse(Converted(v, base, f))
  }

  /** Sign, digits and padding in the order the flags ask for. */
  function Field(d: string, sign: string, width: nat, f: Flags): string {
    var pad := width - |d| - |sign|;
    if f.left then sign + d + Repeat(' ', pad)
    else if !f.zeropad then Repeat(' ', pad) + sign + d
    else if width <= NTOA_BUFFER then sign + Repeat('0', pad) + d
    else Repeat('0', NTOA_BUFFER - |d|) + d
  }

  /**
    A precision asks for zeros up to 32 digits, which leave no room for the sign; on the left it is ignored.
   */
  function IntegerField(d: string, sign: string, prec: nat, width: nat, f: Flags): string {
    if !f.precision || f.left then Field(d, sign, width, f)
    else Field(Repeat('0', (if prec < NTOA_BUFFER then prec else NTOA_BUFFER) - |d|) + d,
        if prec < NTOA_BUFFER then sign else "", width, f)
  }

  /**
    The printed field of a 64-bit value in base 8 to 16, without #, has the order the flags ask for. Only zeros
    beyond 32 characters differ, whether width or precision asks for them: they stop there, and the sign is lost.
   */
  lemma NtoaShape(v: nat, negative: bool, base: nat, prec: nat, width: nat, f: Flags)
    requires v < 0x1_0000_0000_0000_0000 && 8 <= base <= 16 && (f.hash ==> v == 0)
    requires if f.precision then !f.zeropad else prec == 0
    ensures Ntoa(v, negative, base, prec, width, f) ==
        IntegerField(Numeral(v, base, f), Sign(negative, f), prec, width, f)
    ensures |Numeral(v, base, f)| <= 22 && Parse(Numeral(v, base, f), base) == v
    ensures Numeral(v, base, f) == "" <==> f.precision && v == 0
    ensures Numeral(v, base, f) != "" && Numeral(v, base, f)[0] == '0' ==> Numeral(v, base, f) == "0"
  {
    hide Digits, Parse, Reverse, Repeat, Formatted, Field, IntegerField, Ntoa;
    WordFits();
    DigitsParse(v, base, f.uppercase, NTOA_BUFFER, 22);
    ParseNone(base);
    ReverseNone();
    var buf := Converted(v, base, f);
    WithoutHashSame(Numeral(v, base, f), Sign(negative, f), prec, width, f);
    if f.precision {
      PrecisionShape(buf, negative, base, prec, width, f.(hash := false));
    } else {
      FieldShape(buf, negative, base, width, f.(hash := false));
    }
    NoHashAnyway(v, negative, base, prec, width, f);
    if !f.precision { WithoutPrecision(Numeral(v, base, f), Sign(negative, f), prec, width, f.(hash := false)); }
  }

  lemma WithoutHashSame(d: string, sign: string, prec: nat, width: nat, f: Flags)
    ensures IntegerField(d, sign, prec, width, f.(hash := false)) == IntegerField(d, sign, prec, width, f)
  {
    hide Repeat;
  }

  lemma WithoutPrecision(d: string, sign: string, prec: nat, width: nat, f: Flags)
    requires !f.precision
    ensures IntegerField(d, sign, prec, width, f) == Field(d, sign, width, f)
  {}

  lemma ReverseNone()
    ensures Reverse([]) == []
  {}

  lemma NoHashAnyway(v: nat, negative: bool, base: nat, prec: nat, width: nat, f: Flags)
    requires 8 <= base <= 16 && (f.hash ==> v == 0)
    ensures Ntoa(v, negative, base, prec, width, f) ==
        Formatted(Converted(v, base, f), negative, base, prec, width, f.(hash := false))
    ensures Sign(negative, f.(hash := false)) == Sign(negative, f)
  {
    hide Formatted, Digits, Repeat;
  }

  /** With a precision the padding is spaces, and the digits are filled up with zeros on the right only. */
  lemma PrecisionShape(buf: string, negative: bool, base: nat, prec: nat, width: nat, f: Flags)
    requires Roomy(|buf|, negative, f) && !f.hash && !f.zeropad && f.precision
    ensures Formatted(buf, negative, base, prec, width, f) ==
        IntegerField(Reverse(buf), Sign(negative, f), prec, width, f)
  {
    hide Repeat, Reverse, Padded, Field, Signed, ZeroFill, Sign, FieldBody, DigitWidth;
    PrecisionBody(buf, negative, base, prec, width, f);
    if f.left {
      SpaceField(buf, negative, width, f);
    } else {
      PrecisionZeros(buf, negative, prec, width, f);
    }
  }

  lemma PrecisionBody(buf: string, negative: bool, base: nat, prec: nat, width: nat, f: Flags)
    requires !f.hash && !f.zeropad
    ensures FieldBody(buf, negative, base, prec, width, f) ==
        Signed(if f.left then buf else ZeroFill(buf, prec), negative, f)
    ensures DigitWidth(negative, width, f) == width
  {
    hide ZeroFill, Signed;
  }

  lemma PrecisionZeros(buf: string, negative: bool, prec: nat, width: nat, f: Flags)
    requires Roomy(|buf|, negative, f) && !f.zeropad && !f.left
    ensures Padded(Signed(ZeroFill(buf, prec), negative, f), width, f) ==
      Field(Repeat('0', (if prec < NTOA_BUFFER then prec else NTOA_BUFFER) - |buf|) + Reverse(buf),
        if prec < NTOA_BUFFER then Sign(negative, f) else "", width, f)
  {
    hide Repeat, Reverse, Padded, Field, Signed, ZeroFill, Sign;
    var m := (if prec < NTOA_BUFFER then prec else NTOA_BUFFER) - |buf|;
    Filled(buf, prec);
    RepeatLength('0', m);
    PaddedOnOneSide(Signed(buf + Repeat('0', m), negative, f), width, f);
    ZerosReversed(buf, m, negative, f);
    SignedWidth(buf + Repeat('0', m), negative, f);
    PrecisionField(Repeat('0', m) + Reverse(buf), if prec < NTOA_BUFFER then Sign(negative, f) else "", width, f);
  }

  lemma PrecisionField(digits: string, sign: string, width: nat, f: Flags)
    requires !f.left && !f.zeropad
    ensures Field(digits, sign, width, f) == Repeat(' ', width - (|digits| + |sign|)) + (sign + digits)
  {
    hide Repeat;
    Associates(Repeat(' ', width - (|digits| + |sign|)), sign, digits);
  }

  lemma SignedWidth(buf: string, negative: bool, f: Flags)
    ensures |Signed(buf, negative, f)| == |buf| + if |buf| < NTOA_BUFFER then |Sign(negative, f)| else 0
  {}

  lemma FieldShape(buf: string, negative: bool, base: nat, width: nat, f: Flags)
    requires 0 < |buf| && Roomy(|buf|, negative, f) && !f.hash
    ensures Formatted(buf, negative, base, 0, width, f) == Field(Reverse(buf), Sign(negative, f), width, f)
  {
    hide Repeat, Reverse, Padded, FieldBody, Field, Signed;
    if !f.left && f.zeropad {
      ZeroBody(buf, negative, base, width, f);
      ZeroField(buf, negative, width, f);
    } else {
      SpaceBody(buf, negative, base, width, f);
      SpaceField(buf, negative, width, f);
    }
  }

  lemma NoFill(buf: string)
    requires buf != []
    ensures ZeroFill(buf, 0) == buf
  {
    NoRepeat('0', 0 - |buf|);
    assert buf + [] == buf;
  }

  lemma SpaceBody(buf: string, negative: bool, base: nat, width: nat, f: Flags)
    requires buf != [] && !f.hash && (f.left || !f.zeropad)
    ensures FieldBody(buf, negative, base, 0, width, f) == Signed(buf, negative, f) &&
        DigitWidth(negative, width, f) == width
  {
    hide ZeroFill, Signed;
    NoFill(buf);
  }

  lemma SpaceField(buf: string, negative: bool, width: nat, f: Flags)
    requires Roomy(|buf|, negative, f) && (f.left || !f.zeropad)
    ensures Padded(Signed(buf, negative, f), width, f) == Field(Reverse(buf), Sign(negative, f), width, f)
  {
    hide Repeat, Reverse, Signed, Padded, Sign, Roomy, Field;
    BufferRoom(buf, negative, f);
    SignReversed(buf, negative, f);
    SignedWidth(buf, negative, f);
    PaddedOnOneSide(Signed(buf, negative, f), width, f);
    SpacedIs(Reverse(buf), Sign(negative, f), width, f);
  }

  lemma BufferRoom(buf: string, negative: bool, f: Flags)
    requires Roomy(|buf|, negative, f)
    ensures |buf| >= NTOA_BUFFER ==> Sign(negative, f) == ""
    ensures |Reverse(buf)| == |buf|
  {}

  lemma SpacedIs(d: string, sign: string, width: nat, f: Flags)
    requires f.left || !f.zeropad
    ensures Field(d, sign, width, f) ==
      if f.left then sign + d + Repeat(' ', width - (|d| + |sign|))
      else Repeat(' ', width - (|d| + |sign|)) + (sign + d)
  {
    hide Repeat;
    Associates(Repeat(' ', width - |d| - |sign|), sign, d);
  }

  lemma Associates(a: string, b: string, c: string)
    ensures a + b + c == a + (b + c) && [] + (b + c) == b + c
  {}

  lemma PaddedOnOneSide(buf: string, width: nat, f: Flags)
    ensures f.left ==> Padded(buf, width, f) == Reverse(buf) + Repeat(' ', width - |buf|)
    ensures !f.left && !f.zeropad ==> Padded(buf, width, f) == Repeat(' ', width - |buf|) + Reverse(buf)
    ensures !f.left && f.zeropad ==> Padded(buf, width, f) == Reverse(buf)
  {
    hide Repeat, Reverse;
    NoRepeat(' ', 0);
    Associates([], Reverse(buf), Repeat(' ', if f.left then width - |buf| else 0));
    Associates([], [], Reverse(buf));
    assert Reverse(buf) + [] == Reverse(buf);
    assert Repeat(' ', width - |buf|) + Reverse(buf) + [] == Repeat(' ', width - |buf|) + Reverse(buf);
  }

  lemma ZeroBody(buf: string, negative: bool, base: nat, width: nat, f: Flags)
    requires buf != [] && !f.hash && !f.left && f.zeropad
    ensures FieldBody(buf, negative, base, 0, width, f) ==
        Signed(ZeroFill(buf, DigitWidth(negative, width, f)), negative, f)
  {
    hide ZeroFill, Signed, DigitWidth;
    NoFill(buf);
  }

  lemma ZeroField(buf: string, negative: bool, width: nat, f: Flags)
    requires 0 < |buf| && Roomy(|buf|, negative, f) && !f.left && f.zeropad
    ensures var w := DigitWidth(negative, width, f);
      Padded(Signed(ZeroFill(buf, w), negative, f), w, f) == Field(Reverse(buf), Sign(negative, f), width, f)
  {
    hide Repeat, Reverse, Signed, Padded, DigitWidth, Sign, ZeroFill, Field;
    var w, sign, d := DigitWidth(negative, width, f), Sign(negative, f), Reverse(buf);
    var m := (if w < NTOA_BUFFER then w else NTOA_BUFFER) - |buf|;
    ZeroWidth(|buf|, negative, width, f);
    var zeros := Repeat('0', m);
    Filled(buf, w);
    PaddedOnOneSide(Signed(buf + zeros, negative, f), w, f);
    RepeatLength('0', m);
    ZerosReversed(buf, m, negative, f);
    ZeroFieldIs(d, sign, zeros, width, m, f);
  }

  lemma ZeroFieldIs(d: string, sign: string, zeros: string, width: nat, m: int, f: Flags)
    requires !f.left && f.zeropad && zeros == Repeat('0', m)
    requires width <= NTOA_BUFFER ==> m == width - |d| - |sign| || (m <= 0 && width - |d| - |sign| <= 0)
    requires width > NTOA_BUFFER ==> m == NTOA_BUFFER - |d|
    ensures Field(d, sign, width, f) == (if width <= NTOA_BUFFER then sign else "") + (zeros + d)
  {
    hide Repeat;
    NoRepeat('0', m);
    NoRepeat('0', width - |d| - |sign|);
    Associates(sign, zeros, d);
  }

  lemma ZerosReversed(buf: string, m: int, negative: bool, f: Flags)
    ensures var zeros := Repeat('0', m);
      Reverse(Signed(buf + zeros, negative, f)) ==
        (if |buf| + |zeros| < NTOA_BUFFER then Sign(negative, f) else "") + (zeros + Reverse(buf))
  {
    hide Repeat, Reverse, Signed, Sign;
    SignReversed(buf + Repeat('0', m), negative, f);
    ReverseConcat(buf, Repeat('0', m));
    ReverseRepeat('0', m);
  }

  lemma Filled(buf: string, w: nat)
    ensures ZeroFill(buf, w) == buf + Repeat('0', (if w < NTOA_BUFFER then w else NTOA_BUFFER) - |buf|)
  {}

  /** How many zeros go in, and whether room is left for the sign. */
  lemma ZeroWidth(n: nat, negative: bool, width: nat, f: Flags)
    requires 0 < n && Roomy(n, negative, f) && !f.left && f.zeropad
    ensures var w, s := DigitWidth(negative, width, f), |Sign(negative, f)|;
      var m := (if w < NTOA_BUFFER then w else NTOA_BUFFER) - n;
      && (width <= NTOA_BUFFER ==> m == width - n - s || (m <= 0 && width - n - s <= 0))
      && (width <= NTOA_BUFFER ==> Sign(negative, f) == "" || (n < NTOA_BUFFER && n + m < NTOA_BUFFER))
      && (width > NTOA_BUFFER ==> m == NTOA_BUFFER - n)
  {}

  lemma RepeatLength(c: char, n: int)
    ensures |Repeat(c, n)| == if n > 0 then n else 0
  {}

  lemma NoRepeat(c: char, n: int)
    ensures n <= 0 ==> Repeat(c, n) == []
  {}

  lemma SignReversed(buf: string, negative: bool, f: Flags)
    ensures Reverse(Signed(buf, negative, f)) == (if |buf| < NTOA_BUFFER then Sign(negative, f) else "") + Reverse(buf)
  {
    hide Reverse;
    if Sign(negative, f) == "" || |buf| >= NTOA_BUFFER {
      assert [] + Reverse(buf) == Reverse(buf);
    } else {
      OneCharReversed(buf, Sign(negative, f)[0]);
    }
  }

  lemma OneCharReversed(buf: string, c: char)
    ensures Reverse(buf + [c]) == [c] + Reverse(buf)
  {
    assert (buf + [c])[..|buf|] == buf;
  }

  /** The field is as wide as asked, or as its contents, exactly unless zero-padding to more than 32 is asked for. */
  lemma FieldLength(v: nat, negative: bool, base: nat, width: nat, f: Flags)
    requires v < 0x1_0000_0000_0000_0000 && 8 <= base <= 16 && !f.precision && (f.hash ==> v == 0)
    ensures var n := |Numeral(v, base, f)| + |Sign(negative, f)|;
      |Ntoa(v, negative, base, 0, width, f)| == (if width > n then width else n) <==>
          f.left || !f.zeropad || width <= NTOA_BUFFER
  {
    NtoaShape(v, negative, base, 0, width, f);
  }

  /** Zero-padding a negative number to 33 characters prints 32, and no sign. */
  lemma WideZeroPadLosesSign()
    ensures var f := NO_FLAGS.(zeropad := true);
      && |Ntoa(7, true, 10, 0, 33, f)| == 32 && Ntoa(7, true, 10, 0, 33, f)[0] == '0'
  {
    var f := NO_FLAGS.(zeropad := true);
    NtoaShape(7, true, 10, 0, 33, f);
  }

  // ----- Reading a field back -----

  function TrimLeft(s: string): string {
    if s != [] && s[0] == ' ' then TrimLeft(s[1..]) else s
  }

  function TrimRight(s: string): string {
    if s != [] && s[|s| - 1] == ' ' then TrimRight(s[..|s| - 1]) else s
  }

  /** The number that a field denotes: spaces around it, an optional sign, digits. */
  function ReadBack(s: string, base: nat): int {
    var t := TrimRight(TrimLeft(s));
    if t != [] && t[0] == '-' then 0 - Parse(t[1..], base)
    else if t != [] && t[0] == '+' then Parse(t[1..], base)
    else Parse(t, base)
  }

  lemma {:induction false} TrimFront(n: int, s: string)
    requires s != [] && s[0] != ' '
    ensures TrimLeft(Repeat(' ', n) + s) == s
    decreases if n > 0 then n else 0
  {
    if n <= 0 {
      assert Repeat(' ', n) + s == s;
    } else {
      TrimFront(n - 1, s);
      assert (Repeat(' ', n) + s)[1..] == Repeat(' ', n - 1) + s;
    }
  }

  lemma {:induction false} TrimBack(s: string, n: int)
    requires s != [] && s[|s| - 1] != ' '
    ensures TrimRight(s + Repeat(' ', n)) == s
    decreases if n > 0 then n else 0
  {
    if n <= 0 {
      assert s + Repeat(' ', n) == s;
    } else {
      TrimBack(s, n - 1);
      assert (s + Repeat(' ', n))[..|s| + n - 1] == s + Repeat(' ', n - 1);
    }
  }

  lemma {:induction false} ParseZeros(n: int, d: string, base: nat)
    ensures Parse(Repeat('0', n) + d, base) == Parse(d, base)
    decreases |d|, if n > 0 then n else 0
  {
    hide Parse;
    if d != [] {
      var init := d[..|d| - 1];
      ParseZeros(n, init, base);
      assert init + [d[|d| - 1]] == d;
      assert Repeat('0', n) + d == Repeat('0', n) + init + [d[|d| - 1]];
      ParseMore(init, d[|d| - 1], base);
      ParseMore(Repeat('0', n) + init, d[|d| - 1], base);
    } else if n > 0 {
      ParseZeros(n - 1, d, base);
      assert Repeat('0', n) + d == Repeat('0', n - 1) + d + ['0'];
      ParseMore(Repeat('0', n - 1) + d, '0', base);
      assert Parse(d, base) == 0 by { ParseNone(base); }
    } else {
      assert Repeat('0', n) + d == d;
    }
  }

  lemma ParseNone(base: nat)
    ensures Parse([], base) == 0
  {
  }

  /** A character of a numeral: neither a space nor a sign. */
  predicate Plain(c: char) { c != ' ' && c != '-' && c != '+' }

  lemma {:induction false} DigitsPlain(v: nat, base: nat, upper: bool, room: nat)
    requires 2 <= base <= 16 && room > 0
    ensures forall k :: 0 <= k < |Digits(v, base, upper, room)| ==> Plain(Digits(v, base, upper, room)[k])
    decreases room
  {
    if v / base != 0 && room > 1 { DigitsPlain(v / base, base, upper, room - 1); }
  }

  lemma {:induction false} ReversePlain(s: string)
    requires forall k :: 0 <= k < |s| ==> Plain(s[k])
    ensures forall k :: 0 <= k < |s| ==> Plain(Reverse(s)[k])
  {
    if s != [] { ReversePlain(s[..|s| - 1]); }
  }

  /** Spaces around a text that starts and ends without one are not read. */
  lemma Trimmed(before: int, core: string, after: int)
    requires core != [] && core[0] != ' ' && core[|core| - 1] != ' '
    ensures TrimRight(TrimLeft(Repeat(' ', before) + (core + Repeat(' ', after)))) == core
  {
    hide TrimLeft, TrimRight, Repeat;
    assert (core + Repeat(' ', after))[0] == core[0];
    TrimFront(before, core + Repeat(' ', after));
    TrimBack(core, after);
  }

  /** What a sign and digits read as. */
  lemma SignRead(sign: string, digits: string)
    requires digits != [] && Plain(digits[0]) && Plain(digits[|digits| - 1]) &&
        (sign == "" || sign == "-" || sign == "+")
    ensures var t := sign + digits;
      && t[0] != ' ' && t[|t| - 1] != ' '
      && (t[0] == '-' <==> sign == "-") && (t[0] == '+' <==> sign == "+") && t[|sign|..] == digits
  {}

  lemma ZerosPlain(zeros: int, d: string)
    requires forall k :: 0 <= k < |d| ==> Plain(d[k])
    ensures forall k :: 0 <= k < |Repeat('0', zeros) + d| ==> Plain((Repeat('0', zeros) + d)[k])
  {}

  lemma {:induction false} OnlySpaces(s: string)
    requires forall k :: 0 <= k < |s| ==> s[k] == ' '
    ensures TrimLeft(s) == []
  {
    if s != [] { OnlySpaces(s[1..]); }
  }

  /** Spaces, a sign, a numeral or nothing, spaces: reads back as the signed number. */
  lemma ReadParts(before: int, sign: string, d: string, after: int, base: nat)
    requires (forall k :: 0 <= k < |d| ==> Plain(d[k])) && (sign == "" || sign == "-" || sign == "+")
    ensures ReadBack(Repeat(' ', before) + (sign + d + Repeat(' ', after)), base)
         == if sign == "-" then 0 - Parse(d, base) else Parse(d, base)
  {
    hide Parse, TrimLeft, TrimRight, Repeat, Plain;
    ParseNone(base);
    assert sign + [] == sign && [] + d == d;
    if d != [] {
      assert Plain(d[0]) && Plain(d[|d| - 1]);
      SignRead(sign, d);
      Trimmed(before, sign + d, after);
    } else if sign != "" {
      Trimmed(before, sign, after);
    } else {
      OnlySpaces(Repeat(' ', before) + (sign + d + Repeat(' ', after)));
      TrimNone();
    }
  }

  lemma TrimNone()
    ensures TrimRight([]) == []
  {}

  /** Whether the width leaves the sign in a field. */
  predicate WidthFits(width: nat, f: Flags) { f.left || !f.zeropad || width <= NTOA_BUFFER }

  /** A field reads back as its sign and numeral; zero-padded beyond 32 characters, without the sign. */
  lemma FieldReadsBack(d: string, sign: string, base: nat, width: nat, f: Flags)
    requires forall k :: 0 <= k < |d| ==> Plain(d[k])
    requires sign == "" || sign == "-" || sign == "+" || sign == " "
    ensures ReadBack(Field(d, sign, width, f), base) ==
        if sign == "-" && WidthFits(width, f) then 0 - Parse(d, base) else Parse(d, base)
  {
    hide Parse, Repeat, ReadBack, Plain;
    if WidthFits(width, f) {
      var before, zeros, after := FieldPads(d, sign, width, f);
      ZerosPlain(zeros, d);
      ReadParts(before, if sign == " " then "" else sign, Repeat('0', zeros) + d, after, base);
      ParseZeros(zeros, d, base);
    } else {
      var zeros := NTOA_BUFFER - |d|;
      ZerosPlain(zeros, d);
      ReadParts(0, "", Repeat('0', zeros) + d, 0, base);
      ParseZeros(zeros, d, base);
      NoRepeat(' ', 0);
      var digits := Repeat('0', zeros) + d;
      assert [] + ("" + digits + []) == digits;
    }
  }

  /** A field is spaces, a sign, zeros, a numeral, spaces; the space flag's sign is one of the spaces. */
  lemma FieldPads(d: string, sign: string, width: nat, f: Flags) returns (before: int, zeros: int, after: int)
    requires WidthFits(width, f)
    ensures var s := if sign == " " then "" else sign;
      Field(d, sign, width, f) == Repeat(' ', before) + (s + (Repeat('0', zeros) + d) + Repeat(' ', after))
  {
    hide Repeat;
    var pad := width - |d| - |sign|;
    var front := if f.left || f.zeropad || pad < 0 then 0 else pad;
    before := front + if sign == " " then 1 else 0;
    zeros := if !f.left && f.zeropad then pad else 0;
    after := if f.left then pad else 0;
    NoRepeat('0', 0);
    NoRepeat(' ', 0);
    NoRepeat(' ', pad);
    MoreSpaces(front);
    SignMoved(Repeat(' ', front), sign, Repeat('0', zeros) + d, Repeat(' ', after));
    FieldParts(d, sign, width, f, Repeat(' ', front), Repeat('0', zeros), Repeat(' ', after));
  }

  lemma FieldParts(d: string, sign: string, width: nat, f: Flags, front: string, zeros: string, after: string)
    requires WidthFits(width, f)
    requires var pad := width - |d| - |sign|;
      && front == (if f.left || f.zeropad then [] else Repeat(' ', pad))
      && zeros == (if !f.left && f.zeropad then Repeat('0', pad) else [])
      && after == (if f.left then Repeat(' ', pad) else [])
    ensures Field(d, sign, width, f) == front + sign + (zeros + d) + after
  {
    hide Repeat;
    if f.left {
      assert front + sign + (zeros + d) + after == sign + d + after;
    } else {
      assert front + sign + (zeros + d) + after == front + sign + zeros + d;
      if f.zeropad { assert front + sign + zeros + d == sign + zeros + d; }
      else { assert front + sign + zeros + d == front + sign + d; }
    }
  }

  lemma SignMoved(front: string, sign: string, digits: string, after: string)
    ensures front + sign + digits + after ==
      if sign == " " then front + " " + ("" + digits + after) else front + (sign + digits + after)
  {}

  lemma MoreSpaces(n: int)
    requires n >= 0
    ensures Repeat(' ', n + 1) == Repeat(' ', n) + " "
  {}

  /** Whether width and precision leave the sign in an integer's field. */
  predicate SignFits(prec: nat, width: nat, f: Flags) {
    if f.precision && !f.left then prec < NTOA_BUFFER else WidthFits(width, f)
  }

  /** An integer's field reads back as the value exactly when it is not negative or its sign fits. */
  lemma NumberReadsBack(v: nat, negative: bool, base: nat, prec: nat, width: nat, f: Flags)
    requires 8 <= base <= 16 && Parse(Numeral(v, base, f), base) == v && (negative ==> v > 0)
    requires f.precision ==> !f.zeropad
    ensures var text := IntegerField(Numeral(v, base, f), Sign(negative, f), prec, width, f);
      ReadBack(text, base) == (if negative then 0 - v else v) <==> !negative || SignFits(prec, width, f)
  {
    hide Parse, ReadBack, Numeral, Sign, IntegerField, SignFits;
    NumeralPlain(v, base, f);
    SignKinds(negative, f);
    IntegerFieldReadsBack(Numeral(v, base, f), Sign(negative, f), base, prec, width, f);
  }

  lemma IntegerFieldReadsBack(d: string, sign: string, base: nat, prec: nat, width: nat, f: Flags)
    requires (forall k :: 0 <= k < |d| ==> Plain(d[k])) && (f.precision ==> !f.zeropad)
    requires sign == "" || sign == "-" || sign == "+" || sign == " "
    ensures ReadBack(IntegerField(d, sign, prec, width, f), base) ==
        if sign == "-" && SignFits(prec, width, f) then 0 - Parse(d, base) else Parse(d, base)
  {
    hide Parse, Repeat, ReadBack, Field, Plain;
    if f.precision && !f.left {
      var zeros := (if prec < NTOA_BUFFER then prec else NTOA_BUFFER) - |d|;
      ZerosPlain(zeros, d);
      ParseZeros(zeros, d, base);
      FieldReadsBack(Repeat('0', zeros) + d, if prec < NTOA_BUFFER then sign else "", base, width, f);
    } else {
      FieldReadsBack(d, sign, base, width, f);
    }
  }

  lemma SignKinds(negative: bool, f: Flags)
    ensures var sign := Sign(negative, f);
      (sign == "" || sign == "-" || sign == "+" || sign == " ") && (sign == "-" <==> negative)
  {}

  lemma NumeralPlain(v: nat, base: nat, f: Flags)
    requires 8 <= base <= 16
    ensures forall k :: 0 <= k < |Numeral(v, base, f)| ==> Plain(Numeral(v, base, f)[k])
  {
    hide Digits, Reverse, Plain;
    DigitsPlain(v, base, f.uppercase, NTOA_BUFFER);
    ReversePlain(Converted(v, base, f));
  }

  /**
    What %d, %i, %u, %x, %X and %o print, without # where it matters, has the shape the flags and the precision ask
    for. It reads back as the argument as its length modifier casts it exactly when that is not negative, or the
    zeros asked for leave room for its sign.
   */
  lemma IntegerReadsBack(c: char, n: int, conv: Conv)
    requires IsInteger(c) && c != 'b' && (conv.flags.hash ==> BaseOf(c) == 10)
    requires !conv.flags.precision ==> conv.prec == 0
    ensures var v, f := IntegerValue(c, n, conv.flags), IntegerFlags(c, conv.flags);
      var d, sign := Numeral(if v < 0 then 0 - v else v, BaseOf(c), f), Sign(v < 0, f);
      && IntegerText(c, n, conv) == IntegerField(d, sign, conv.prec, conv.width, f)
      && Parse(d, BaseOf(c)) == (if v < 0 then 0 - v else v)
      && (d == "" <==> f.precision && v == 0) && (d != "" && d[0] == '0' ==> d == "0")
      && (ReadBack(IntegerText(c, n, conv), BaseOf(c)) == v <==> v >= 0 || SignFits(conv.prec, conv.width, f))
  {
    hide IntegerValue, Numeral, Field, IntegerField, Ntoa, Parse, ReadBack, Sign, IntegerFlags, BaseOf, SignFits;
    var v, f := IntegerValue(c, n, conv.flags), IntegerFlags(c, conv.flags);
    IntegerInRange(c, n, conv.flags);
    FlagsKept(c, conv.flags);
    NotBinary(c);
    var m: nat := if v < 0 then 0 - v else v;
    NtoaShape(m, v < 0, BaseOf(c), conv.prec, conv.width, f);
    NumberReadsBack(m, v < 0, BaseOf(c), conv.prec, conv.width, f);
  }

  lemma FlagsKept(c: char, f: Flags)
    requires f.hash ==> BaseOf(c) == 10
    ensures !IntegerFlags(c, f).hash && IntegerFlags(c, f).precision == f.precision
    ensures f.precision ==> !IntegerFlags(c, f).zeropad
  {
    hide BaseOf, IsSigned, WithoutHash, WithCase, WithoutSign, WithoutPadding;
    HashKept(c, f);
    CaseKept(c, WithoutHash(c, f));
    SignKept(c, WithCase(c, WithoutHash(c, f)));
    PaddingKept(WithoutSign(c, WithCase(c, WithoutHash(c, f))));
  }

  lemma HashKept(c: char, f: Flags)
    ensures !f.hash || BaseOf(c) == 10 ==> !WithoutHash(c, f).hash
    ensures WithoutHash(c, f).precision == f.precision
  {}

  lemma CaseKept(c: char, f: Flags)
    ensures WithCase(c, f).hash == f.hash && WithCase(c, f).precision == f.precision
  {}

  lemma SignKept(c: char, f: Flags)
    ensures WithoutSign(c, f).hash == f.hash && WithoutSign(c, f).precision == f.precision
  {}

  lemma PaddingKept(f: Flags)
    ensures WithoutPadding(f).hash == f.hash && WithoutPadding(f).precision == f.precision
    ensures f.precision ==> !WithoutPadding(f).zeropad
  {}

  lemma NotBinary(c: char)
    requires c != 'b'
    ensures 8 <= BaseOf(c) <= 16
  {}

  lemma IntegerInRange(c: char, n: int, f: Flags)
    ensures 0 - 0x8000_0000_0000_0000 <= IntegerValue(c, n, f) < 0x1_0000_0000_0000_0000
  {}
}
