/**
  The # flag of kernel/src/lib/printf.c:247-266 without a precision: the prefix, and the digits that are lost to it when
  they fill the field's width.
 */
module PrintfHash {
  import opened PrintfSpec
  import opened PrintfDigits
  import opened PrintfFields

  function Prefix(base: nat, upper: bool): string {
    if base == 16 then (if upper then "0X" else "0x") else if base == 2 then "0b" else "0"
  }

  /** The prefix as far as the 32-character buffer has room: the 0 before it goes first. */
  function WithPrefix(base: nat, upper: bool, t: string): string {
    var p := Prefix(base, upper);
    if |t| + |p| <= 32 then p + t else if |t| < 32 then p[1..] + t else t
  }

  /** The digits once zeros fill the width. */
  function Filled(d: string, width: nat, f: Flags): string {
    if f.left || !f.zeropad then d else Repeat('0', (if width < 32 then width else 32) - |d|) + d
  }

  /** One character is taken off digits that fill the width, two in base 16. */
  function Kept(t: string, base: nat, width: nat): string {
    if |t| != width || t == [] then t else if base == 16 && |t| > 1 then t[2..] else t[1..]
  }

  lemma {:induction false} ReverseDrop(s: string, k: nat)
    requires k <= |s|
    ensures Reverse(s[..|s| - k]) == Reverse(s)[k..]
    decreases k
  {
    if k == 0 {
      assert s[..|s| - 0] == s;
    } else {
      var init := s[..|s| - 1];
      ReverseDrop(init, k - 1);
      assert init[..|init| - (k - 1)] == s[..|s| - k];
      assert ([s[|s| - 1]] + Reverse(init))[k..] == Reverse(init)[k - 1..];
    }
  }

  lemma PutReversed(s: string, ch: char)
    ensures Reverse(Put(s, ch)) == if |s| < 32 then [ch] + Reverse(s) else Reverse(s)
  {
    hide Reverse;
    OneCharReversed(s, ch);
  }

  lemma TwoPut(s: string, a: char, b: char)
    ensures Reverse(Put(Put(s, a), b)) ==
      if |s| <= 30 then [b, a] + Reverse(s) else if |s| < 32 then [a] + Reverse(s) else Reverse(s)
  {
    hide Reverse, Put;
    PutReversed(s, a);
    PutReversed(Put(s, a), b);
    PutSize(s, a);
    TwoFront(a, b, Reverse(s));
  }

  lemma TwoFront(a: char, b: char, s: string)
    ensures [b] + ([a] + s) == [b, a] + s
  {}

  lemma PutSize(s: string, ch: char)
    ensures |Put(s, ch)| == if |s| < 32 then |s| + 1 else |s|
  {}

  lemma ReverseSize(s: string)
    ensures |Reverse(s)| == |s|
  {}

  /** The digits in the buffer once those for which the prefix has no room are taken off. */
  function Shortened(buf: string, base: nat, width: nat): (b: string)
    requires buf != []
  {
    if |buf| != width then buf else if base == 16 && |buf| > 1 then buf[..|buf| - 2] else buf[..|buf| - 1]
  }

  lemma ShortenedReversed(buf: string, base: nat, width: nat)
    requires buf != []
    ensures Reverse(Shortened(buf, base, width)) == Kept(Reverse(buf), base, width)
    ensures |Kept(Reverse(buf), base, width)| == |Shortened(buf, base, width)|
  {
    hide Reverse;
    ReverseSize(buf);
    ReverseSize(Shortened(buf, base, width));
    ReverseDrop(buf, 1);
    if |buf| > 1 { ReverseDrop(buf, 2); }
  }

  lemma HashedPut(buf: string, base: nat, width: nat, f: Flags)
    requires buf != [] && !f.precision
    ensures var b := Shortened(buf, base, width);
      Hashed(buf, base, 0, width, f) ==
        if base == 16 then Put(Put(b, if f.uppercase then 'X' else 'x'), '0')
        else if base == 2 then Put(Put(b, 'b'), '0')
        else Put(b, '0')
  {
    hide Put;
  }

  /** In reading order: the prefix before the digits that are kept. */
  lemma HashedReversed(buf: string, base: nat, width: nat, f: Flags)
    requires buf != [] && !f.precision && |buf| <= 32
    ensures Reverse(Hashed(buf, base, 0, width, f))
         == WithPrefix(base, f.uppercase, Kept(Reverse(buf), base, width))
  {
    hide Reverse, Put, Hashed, Kept;
    var b := Shortened(buf, base, width);
    HashedPut(buf, base, width, f);
    ShortenedReversed(buf, base, width);
    if base == 16 {
      TwoPut(b, if f.uppercase then 'X' else 'x', '0');
    } else if base == 2 {
      TwoPut(b, 'b', '0');
    } else {
      PutReversed(b, '0');
    }
  }

  /** The field of a value with # and no sign. */
  function HashField(d: string, base: nat, width: nat, f: Flags): string {
    var t := WithPrefix(base, f.uppercase, Kept(Filled(d, width, f), base, width));
    if f.left then t + Repeat(' ', width - |t|)
    else if f.zeropad then t
    else Repeat(' ', width - |t|) + t
  }

  lemma HashShape(v: nat, base: nat, width: nat, f: Flags)
    requires v > 0 && 2 <= base <= 16 && f.hash && !f.precision && !f.plus && !f.space
    ensures Ntoa(v, false, base, 0, width, f) == HashField(Numeral(v, base, f), base, width, f)
  {
    hide Digits, Reverse, Repeat, Padded, Hashed, ZeroFill, WithPrefix, Kept;
    var buf := Converted(v, base, f);
    var w := DigitWidth(false, width, f);
    assert w == width && NoHashForZero(v, f) == f;
    NoFill(buf);
    var filled := if f.left then buf else if f.zeropad then ZeroFill(ZeroFill(buf, 0), w) else ZeroFill(buf, 0);
    FilledReversed(buf, width, f);
    HashedReversed(filled, base, width, f);
    PaddedOnOneSide(Hashed(filled, base, 0, width, f), width, f);
    ReverseSize(Hashed(filled, base, 0, width, f));
  }

  lemma FilledReversed(buf: string, width: nat, f: Flags)
    requires buf != [] && |buf| <= 32
    ensures var filled := if f.left || !f.zeropad then buf else ZeroFill(buf, width);
      filled != [] && |filled| <= 32 && Reverse(filled) == Filled(Reverse(buf), width, f)
  {
    hide Reverse, Repeat;
    var m := (if width < 32 then width else 32) - |buf|;
    ReverseSize(buf);
    RepeatLength('0', m);
    ReverseConcat(buf, Repeat('0', m));
    ReverseRepeat('0', m);
  }

  lemma PrecisionHashed(buf: string, base: nat, prec: nat, width: nat, f: Flags)
    requires f.precision && |buf| <= 32
    ensures Reverse(Hashed(buf, base, prec, width, f)) == WithPrefix(base, f.uppercase, Reverse(buf))
  {
    hide Reverse, Put;
    ReverseSize(buf);
    if base == 16 {
      TwoPut(buf, if f.uppercase then 'X' else 'x', '0');
    } else if base == 2 {
      TwoPut(buf, 'b', '0');
    } else {
      PutReversed(buf, '0');
    }
  }

  lemma HashBody(buf: string, base: nat, prec: nat, width: nat, f: Flags)
    requires f.hash && !f.zeropad && !f.plus && !f.space
    ensures FieldBody(buf, false, base, prec, width, f) ==
        Hashed(if f.left then buf else ZeroFill(buf, prec), base, prec, width, f)
    ensures DigitWidth(false, width, f) == width
  {
    hide Hashed, ZeroFill;
  }

  lemma PrecisionFilled(buf: string, prec: nat, f: Flags)
    requires buf != [] && |buf| <= 32
    ensures var zeros := if f.left then 0 else (if prec < 32 then prec else 32) - |buf|;
      var filled := if f.left then buf else ZeroFill(buf, prec);
      |filled| <= 32 && Reverse(filled) == Repeat('0', zeros) + Reverse(buf)
  {
    hide Reverse, Repeat;
    NoRepeat('0', 0);
    assert [] + Reverse(buf) == Reverse(buf);
    var m := (if prec < 32 then prec else 32) - |buf|;
    RepeatLength('0', m);
    ReverseConcat(buf, Repeat('0', m));
    ReverseRepeat('0', m);
  }

  /** With a precision the prefix goes before the zeros it asks for, and no digit is taken off. */
  lemma HashPrecisionShape(v: nat, base: nat, prec: nat, width: nat, f: Flags)
    requires v > 0 && 2 <= base <= 16 && f.hash && f.precision && !f.zeropad && !f.plus && !f.space
    ensures var d := Numeral(v, base, f);
      var zeros := if f.left then 0 else (if prec < 32 then prec else 32) - |d|;
      var t := WithPrefix(base, f.uppercase, Repeat('0', zeros) + d);
      Ntoa(v, false, base, prec, width, f) ==
        if f.left then t + Repeat(' ', width - |t|) else Repeat(' ', width - |t|) + t
  {
    hide Digits, Reverse, Repeat, Padded, Hashed, ZeroFill, WithPrefix, FieldBody, DigitWidth;
    var buf := Converted(v, base, f);
    assert NoHashForZero(v, f) == f;
    var filled := if f.left then buf else ZeroFill(buf, prec);
    HashBody(buf, base, prec, width, f);
    ReverseSize(buf);
    PrecisionFilled(buf, prec, f);
    PrecisionHashed(filled, base, prec, width, f);
    PaddedOnOneSide(Hashed(filled, base, prec, width, f), width, f);
    ReverseSize(Hashed(filled, base, prec, width, f));
  }

  // ----- Reading it back -----

  /** A numeral after 0x or 0X, or without. */
  function ReadHex(s: string): nat {
    var t := TrimRight(TrimLeft(s));
    if |t| >= 2 && t[0] == '0' && (t[1] == 'x' || t[1] == 'X') then Parse(t[2..], 16) else Parse(t, 16)
  }

  /** Without its first digit a numeral is smaller, unless that is a zero. */
  lemma {:induction false} ParseDrop(d: string, base: nat)
    requires d != [] && base > 0
    ensures if DigitValue(d[0]) == 0 then Parse(d[1..], base) == Parse(d, base)
      else Parse(d[1..], base) < Parse(d, base)
    decreases |d|
  {
    hide Parse, DigitValue;
    var init, last := d[..|d| - 1], d[|d| - 1];
    assert init + [last] == d;
    ParseMore(init, last, base);
    if |d| > 1 {
      ParseDrop(init, base);
      assert init[1..] + [last] == d[1..];
      ParseMore(init[1..], last, base);
      if DigitValue(d[0]) != 0 { Steeper(Parse(init[1..], base), Parse(init, base), base); }
    } else {
      ParseNone(base);
      assert d[1..] == [] && init == [];
    }
  }

  lemma Steeper(p: nat, q: nat, base: nat)
    requires p < q && base > 0
    ensures p * base < q * base
  {
    MulMono(base, p + 1, q);
  }

  /** What the padding leaves of the numeral when its value is kept. */
  lemma FilledParse(d: string, base: nat, width: nat, f: Flags)
    ensures Parse(Filled(d, width, f), base) == Parse(d, base)
  {
    hide Parse, Repeat;
    if !f.left && f.zeropad { ParseZeros((if width < 32 then width else 32) - |d|, d, base); }
  }

  /** Digits are lost exactly when those taken off are not zeros that fill the width. */
  lemma KeptParse(d: string, base: nat, width: nat, f: Flags)
    requires 0 < |d| <= 22 && base > 0 && DigitValue(d[0]) != 0
    ensures Parse(Kept(Filled(d, width, f), base, width), base) == Parse(d, base) <==>
      if f.left || !f.zeropad then width != |d|
      else width != |d| && !(base == 16 && width == |d| + 1)
  {
    hide Parse, DigitValue, Repeat;
    var t := Filled(d, width, f);
    FilledParse(d, base, width, f);
    var zeros := if f.left || !f.zeropad then 0 else (if width < 32 then width else 32) - |d|;
    FilledStart(d, width, f, zeros);
    ParseDrop(t, base);
    if |t| > 1 {
      ParseDrop(t[1..], base);
      assert t[1..][1..] == t[2..] && t[1..][0] == t[1];
    }
  }

  lemma FilledStart(d: string, width: nat, f: Flags, zeros: int)
    requires d != [] && zeros == if f.left || !f.zeropad then 0 else (if width < 32 then width else 32) - |d|
    ensures var t := Filled(d, width, f);
      && |t| == |d| + (if zeros > 0 then zeros else 0)
      && (DigitValue(t[0]) == 0 <==> zeros > 0 || DigitValue(d[0]) == 0)
      && (zeros > 0 ==> |t| > 1 && (DigitValue(t[1]) == 0 <==> zeros > 1 || DigitValue(d[0]) == 0))
  {}

  predicate HexDigit(ch: char) { '0' <= ch <= '9' || 'a' <= ch <= 'f' || 'A' <= ch <= 'F' }

  predicate AllDigits(s: string) { forall k :: 0 <= k < |s| ==> HexDigit(s[k]) }

  lemma DigitIsDigit(d: nat, upper: bool)
    requires d < 16
    ensures HexDigit(DigitChar(d, upper))
  {}

  lemma {:induction false} DigitsAreDigits(v: nat, base: nat, upper: bool, room: nat)
    requires 8 <= base <= 16 && room > 0
    ensures AllDigits(Digits(v, base, upper, room))
    decreases room
  {
    hide Digits, HexDigit, DigitChar;
    DigitsSplit(v, base, upper, room);
    DigitIsDigit(v % base, upper);
    if v / base != 0 && room > 1 { DigitsAreDigits(v / base, base, upper, room - 1); }
  }

  lemma {:induction false} ReverseDigits(s: string)
    requires AllDigits(s)
    ensures AllDigits(Reverse(s))
  {
    if s != [] { ReverseDigits(s[..|s| - 1]); }
  }

  /** The digits of a positive value, the first of which is not a zero. */
  lemma NumeralStarts(v: nat, base: nat, f: Flags)
    requires 0 < v < 0x1_0000_0000_0000_0000 && (base == 8 || base == 16) && !f.precision
    ensures var d := Numeral(v, base, f);
      0 < |d| <= 22 && AllDigits(d) && DigitValue(d[0]) != 0 && Parse(d, base) == v
  {
    hide Digits, Parse, Reverse, Ntoa, IntegerField, Pow8, AllDigits;
    NtoaShape(v, false, base, 0, 0, f.(hash := false));
    DigitsAreDigits(v, base, f.uppercase, NTOA_BUFFER);
    ReverseDigits(Converted(v, base, f));
    FirstDigit(Numeral(v, base, f), base);
  }

  lemma FirstDigit(d: string, base: nat)
    requires d != [] && AllDigits(d) && Parse(d, base) > 0 && (d[0] == '0' ==> d == "0")
    ensures DigitValue(d[0]) != 0
  {
    ParseZero(base);
  }

  lemma ParseZero(base: nat)
    ensures Parse("0", base) == 0
  {
    assert "0"[..0] == [];
  }

  lemma ZerosAreDigits(n: int, d: string)
    requires AllDigits(d)
    ensures AllDigits(Repeat('0', n) + d)
  {}

  /** The digits kept: digits, as many as leave room for a prefix of two unless zeros fill the buffer. */
  lemma KeptDigits(d: string, base: nat, width: nat, f: Flags)
    requires 0 < |d| <= 22 && AllDigits(d)
    ensures var t := Kept(Filled(d, width, f), base, width);
      && AllDigits(t) && |t| <= 32
      && (base == 16 && (f.left || !f.zeropad || width <= 32) ==> |t| <= 30)
      && (!f.left && f.zeropad && width > 32 ==> |t| == 32 && t[0] == '0' && t[1] == '0')
  {
    hide AllDigits, Repeat;
    var m := (if width < 32 then width else 32) - |d|;
    ZerosAreDigits(m, d);
    RepeatLength('0', m);
    TailDigits(Filled(d, width, f));
    if !f.left && f.zeropad && width > 32 { ZeroAt(m); }
  }

  lemma ZeroAt(m: int)
    requires m >= 2
    ensures Repeat('0', m)[0] == '0' && Repeat('0', m)[1] == '0'
  {}

  lemma TailDigits(t: string)
    requires AllDigits(t)
    ensures |t| > 0 ==> AllDigits(t[1..])
    ensures |t| > 1 ==> AllDigits(t[2..])
  {}

  /** Spaces around a text are not read. */
  lemma HashFieldTrimmed(d: string, base: nat, width: nat, f: Flags)
    requires 0 < |d| <= 22 && AllDigits(d) && (base == 8 || base == 16)
    ensures var t := WithPrefix(base, f.uppercase, Kept(Filled(d, width, f), base, width));
      t != [] && t[0] != ' ' && t[|t| - 1] != ' ' && TrimRight(TrimLeft(HashField(d, base, width, f))) == t
  {
    hide Repeat, TrimLeft, TrimRight, Kept, Filled;
    KeptDigits(d, base, width, f);
    var t := WithPrefix(base, f.uppercase, Kept(Filled(d, width, f), base, width));
    NoRepeat(' ', 0);
    var before := if f.left || f.zeropad then 0 else width - |t|;
    var after := if f.left then width - |t| else 0;
    NoRepeat(' ', before);
    assert t + [] == t && [] + t == t && [] + (t + Repeat(' ', after)) == t + Repeat(' ', after);
    Trimmed(before, t, after);
  }

  /** In base 16 the prefix is there unless zeros fill the buffer, and what follows it are the digits kept. */
  lemma HexRead(d: string, width: nat, f: Flags)
    requires 0 < |d| <= 22 && AllDigits(d)
    ensures var t := TrimRight(TrimLeft(HashField(d, 16, width, f)));
      (|t| >= 2 && t[0] == '0' && t[1] == if f.uppercase then 'X' else 'x') <==> f.left || !f.zeropad || width <= 32
    ensures ReadHex(HashField(d, 16, width, f)) == Parse(Kept(Filled(d, width, f), 16, width), 16)
  {
    hide Parse, TrimLeft, TrimRight, Kept, Filled, HashField;
    HashFieldTrimmed(d, 16, width, f);
    KeptDigits(d, 16, width, f);
    var t := Kept(Filled(d, width, f), 16, width);
    assert |t| <= 30 ==> WithPrefix(16, f.uppercase, t)[2..] == t;
  }

  /** In base 8 the prefix is one more zero. */
  lemma OctalRead(d: string, width: nat, f: Flags)
    requires 0 < |d| <= 22 && AllDigits(d)
    ensures ReadBack(HashField(d, 8, width, f), 8) == Parse(Kept(Filled(d, width, f), 8, width), 8)
  {
    hide Parse, TrimLeft, TrimRight, Kept, Filled, HashField, Repeat;
    HashFieldTrimmed(d, 8, width, f);
    KeptDigits(d, 8, width, f);
    var t := Kept(Filled(d, width, f), 8, width);
    ParseZeros(1, t, 8);
    OneZero();
    PlainStart(WithPrefix(8, f.uppercase, t), t);
  }

  lemma OneZero()
    ensures Repeat('0', 1) == "0"
  {}

  lemma PlainStart(u: string, t: string)
    requires AllDigits(t) && u != [] && (u == t || u == "0" + t)
    ensures u[0] != '-' && u[0] != '+'
  {}

  /**
    With # a positive argument of its type is read back exactly when its digits, and for %x and %X one zero before
    them, do not fill the width: then the first ones are lost.
   */
  lemma HashReadsBack(c: char, n: int, conv: Conv)
    requires c in "xXo" && n > 0 && Fits(c, n, conv.flags)
    requires conv.flags.hash && !conv.flags.precision && conv.prec == 0 && !conv.flags.uppercase
    ensures var text, size := IntegerText(c, n, conv), |Numeral(n, if c == 'o' then 8 else 16, conv.flags)|;
      && (c == 'o' ==> (ReadBack(text, 8) == n <==> conv.width != size))
      && (c != 'o' ==> (ReadHex(text) == n <==>
            conv.width != size && (conv.width != size + 1 || conv.flags.left || !conv.flags.zeropad)))
      && (c != 'o' ==>
            var t := TrimRight(TrimLeft(text));
            (|t| >= 2 && t[0] == '0' && t[1] == (if c == 'X' then 'X' else 'x')) <==>
              conv.flags.left || !conv.flags.zeropad || conv.width <= 32)
  {
    hide IntegerValue, Fits, ReadBack, ReadHex, HashField, Numeral, Ntoa, TrimLeft, TrimRight, IntegerFlags, Kept,
        Filled, Parse, AllDigits;
    CastExact(c, n, conv.flags);
    WordSized(c, n, conv.flags);
    HashFlags(c, conv.flags);
    var f, base := IntegerFlags(c, conv.flags), if c == 'o' then 8 else 16;
    NumeralStarts(n, base, f);
    NumeralSize(n, base, f, conv.flags);
    HashShape(n, base, conv.width, f);
    var d := Numeral(n, base, f);
    KeptParse(d, base, conv.width, f);
    if c == 'o' { OctalRead(d, conv.width, f); } else { HexRead(d, conv.width, f); }
  }

  lemma WordSized(c: char, n: int, f: Flags)
    requires c in "xXo" && Fits(c, n, f)
    ensures 0 <= n < 0x1_0000_0000_0000_0000
  {}

  lemma HashFlags(c: char, f: Flags)
    requires c in "xXo" && f.hash && !f.precision && !f.uppercase
    ensures var g := IntegerFlags(c, f);
      && g.hash && !g.precision && !g.plus && !g.space && g.left == f.left && g.zeropad == f.zeropad
      && (g.uppercase <==> c == 'X')
  {
    hide WithCase, WithoutSign, WithoutPadding, IsSigned, BaseOf;
    assert WithoutHash(c, f) == f by { HashBase(c); }
    HashCase(c, f);
    HashSign(c, WithCase(c, f));
    HashPadding(WithoutSign(c, WithCase(c, f)));
  }

  lemma HashBase(c: char)
    requires c in "xXo"
    ensures BaseOf(c) != 10
  {}

  lemma HashCase(c: char, f: Flags)
    requires !f.uppercase
    ensures WithCase(c, f).hash == f.hash && WithCase(c, f).precision == f.precision
    ensures WithCase(c, f).left == f.left && WithCase(c, f).zeropad == f.zeropad
    ensures WithCase(c, f).uppercase <==> c == 'X'
  {
    CaseAside(c, f);
    CaseKept(c, f);
    hide WithCase;
    CaseOnly(c, f);
  }

  lemma CaseOnly(c: char, f: Flags)
    requires !f.uppercase
    ensures WithCase(c, f).uppercase <==> c == 'X'
  {}

  lemma HashSign(c: char, f: Flags)
    requires c in "xXo"
    ensures var g := WithoutSign(c, f);
      && g.hash == f.hash && g.precision == f.precision && g.left == f.left && g.zeropad == f.zeropad
      && g.uppercase == f.uppercase && !g.plus && !g.space
  {}

  lemma HashPadding(f: Flags)
    requires !f.precision
    ensures WithoutPadding(f) == f
  {}

  /** Upper case changes no length. */
  lemma {:induction false} DigitsSize(v: nat, base: nat, room: nat)
    requires 2 <= base <= 16 && room > 0
    ensures |Digits(v, base, true, room)| == |Digits(v, base, false, room)|
    decreases room
  {
    if v / base != 0 && room > 1 { DigitsSize(v / base, base, room - 1); }
  }

  lemma NumeralSize(v: nat, base: nat, f: Flags, g: Flags)
    requires 2 <= base <= 16 && !f.precision && !g.precision
    ensures |Numeral(v, base, f)| == |Numeral(v, base, g)|
  {
    hide Reverse, Digits;
    ReverseSize(Converted(v, base, f));
    ReverseSize(Converted(v, base, g));
    DigitsSize(v, base, NTOA_BUFFER);
  }
}
