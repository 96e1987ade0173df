/**
  What the conversions of kernel/src/lib/printf.c print, said without the functions that compute it: the casts of the
  length modifiers as remainders, the bases as numbers, and strings, characters and pointers place by place.
 */
module PrintfFields {
  import opened PrintfSpec
  import opened PrintfDigits
  import Bits

  // ----- Casts -----

  lemma WholeTurns(q: int, m: int)
    requires m > 0
    ensures q * m % m == 0
  {
    Bits.DivUnique(q * m, m, q, 0);
  }

  /** Two's complement: the number differs from its value in a type by whole turns of the type. */
  lemma SignedResidue(n: int, half: nat)
    requires half > 0
    ensures (SignedOf(n, half) - n) % (2 * half) == 0
  {
    var m := 2 * half;
    assert SignedOf(n, half) - n == (0 - (n + half) / m) * m;
    WholeTurns(0 - (n + half) / m, m);
  }

  lemma UnsignedResidue(n: int, m: nat)
    requires m > 0
    ensures 0 <= n % m < m && (n % m - n) % m == 0
  {
    assert n % m - n == (0 - n / m) * m;
    WholeTurns(0 - n / m, m);
  }

  /** %d and %i read a char, a short, an int or a long as hh, h, nothing, or one of l, ll, j, z and t says. */
  lemma SignedCast(c: char, n: int, f: Flags)
    requires c == 'd' || c == 'i'
    ensures var v := IntegerValue(c, n, f);
      && (f.isLong || f.isLongLong ==>
            -0x8000_0000_0000_0000 <= v < 0x8000_0000_0000_0000 && (v - n) % 0x1_0000_0000_0000_0000 == 0)
      && (!f.isLong && !f.isLongLong && f.isChar ==> -128 <= v < 128 && (v - n) % 256 == 0)
      && (!f.isLong && !f.isLongLong && !f.isChar && f.isShort ==> -32768 <= v < 32768 && (v - n) % 65536 == 0)
      && (!f.isLong && !f.isLongLong && !f.isChar && !f.isShort ==>
            -0x8000_0000 <= v < 0x8000_0000 && (v - n) % 0x1_0000_0000 == 0)
  {
    hide SignedOf;
    SignedResidue(n, if f.isLong || f.isLongLong then 0x8000_0000_0000_0000 else if f.isChar then 0x80
        else if f.isShort then 0x8000 else 0x8000_0000);
  }

  /** The other integer conversions read the unsigned types. */
  lemma UnsignedCast(c: char, n: int, f: Flags)
    requires c in "uxXob"
    ensures var v := IntegerValue(c, n, f);
      && (f.isLong || f.isLongLong ==> 0 <= v < 0x1_0000_0000_0000_0000 && (v - n) % 0x1_0000_0000_0000_0000 == 0)
      && (!f.isLong && !f.isLongLong && f.isChar ==> 0 <= v < 256 && (v - n) % 256 == 0)
      && (!f.isLong && !f.isLongLong && !f.isChar && f.isShort ==> 0 <= v < 65536 && (v - n) % 65536 == 0)
      && (!f.isLong && !f.isLongLong && !f.isChar && !f.isShort ==>
            0 <= v < 0x1_0000_0000 && (v - n) % 0x1_0000_0000 == 0)
  {
    UnsignedResidue(n, if f.isLong || f.isLongLong then 0x1_0000_0000_0000_0000 else if f.isChar then 256
        else if f.isShort then 65536 else 0x1_0000_0000);
  }

  /** Whether the argument is a value of the type that the conversion and its length modifier name. */
  predicate Fits(c: char, n: int, f: Flags) {
    if c == 'd' || c == 'i' then
      if f.isLong || f.isLongLong then -0x8000_0000_0000_0000 <= n < 0x8000_0000_0000_0000
      else if f.isChar then -128 <= n < 128
      else if f.isShort then -32768 <= n < 32768
      else -0x8000_0000 <= n < 0x8000_0000
    else
      if f.isLong || f.isLongLong then 0 <= n < 0x1_0000_0000_0000_0000
      else if f.isChar then 0 <= n < 256
      else if f.isShort then 0 <= n < 65536
      else 0 <= n < 0x1_0000_0000
  }

  lemma SameResidue(v: int, n: int, m: nat)
    requires m > 0 && (v - n) % m == 0 && 0 - m < v - n < m
    ensures v == n
  {}

  /** A value of the type is printed as itself, and no other number is. */
  lemma CastExact(c: char, n: int, f: Flags)
    requires IsInteger(c)
    ensures IntegerValue(c, n, f) == n <==> Fits(c, n, f)
  {
    hide IntegerValue;
    var v := IntegerValue(c, n, f);
    if c == 'd' || c == 'i' { SignedCast(c, n, f); } else { UnsignedCast(c, n, f); }
    if Fits(c, n, f) {
      SameResidue(v, n, if f.isLong || f.isLongLong then 0x1_0000_0000_0000_0000 else if f.isChar then 256
          else if f.isShort then 65536 else 0x1_0000_0000);
    }
  }

  /**
    An argument of its type is read back from what is printed, in decimal from %d, %i and %u, in base 16 from %x and %X
    and in base 8 from %o, exactly when it is not negative or zeros leave room for its sign.
   */
  lemma ArgumentReadsBack(c: char, n: int, conv: Conv)
    requires c in "diuxXo" && Fits(c, n, conv.flags) && (conv.flags.hash ==> c in "diu")
    requires !conv.flags.precision ==> conv.prec == 0
    ensures var text := IntegerText(c, n, conv);
      var room := conv.flags.left ||
        (if conv.flags.precision then conv.prec < 32 else !conv.flags.zeropad || conv.width <= 32);
      && (c in "diu" ==> (ReadBack(text, 10) == n <==> n >= 0 || room))
      && (c in "xX" ==> ReadBack(text, 16) == n)
      && (c == 'o' ==> ReadBack(text, 8) == n)
  {
    hide IntegerText, IntegerValue, ReadBack, Parse, Field, IntegerField, Fits, Numeral, Sign;
    CastExact(c, n, conv.flags);
    IntegerReadsBack(c, n, conv);
    if c !in "diu" { ArgumentSign(c, n, conv.flags); }
    RoomForSign(c, conv);
  }

  lemma ArgumentSign(c: char, n: int, f: Flags)
    requires c in "xXo" && Fits(c, n, f)
    ensures n >= 0
  {}

  lemma RoomForSign(c: char, conv: Conv)
    ensures SignFits(conv.prec, conv.width, IntegerFlags(c, conv.flags)) <==>
        conv.flags.left || if conv.flags.precision then conv.prec < 32 else !conv.flags.zeropad || conv.width <= 32
  {
    hide BaseOf, IsSigned, WithoutHash, WithCase, WithoutSign, WithoutPadding;
    var f := conv.flags;
    var f1 := WithoutHash(c, f);
    var f2 := WithCase(c, f1);
    HashAside(c, f);
    CaseAside(c, f1);
    SignAside(c, f2);
    PaddingAside(WithoutSign(c, f2));
  }

  lemma HashAside(c: char, f: Flags)
    ensures var g := WithoutHash(c, f); g.left == f.left && g.precision == f.precision && g.zeropad == f.zeropad
  {
    hide BaseOf;
  }

  lemma CaseAside(c: char, f: Flags)
    ensures var g := WithCase(c, f); g.left == f.left && g.precision == f.precision && g.zeropad == f.zeropad
  {}

  lemma SignAside(c: char, f: Flags)
    ensures var g := WithoutSign(c, f); g.left == f.left && g.precision == f.precision && g.zeropad == f.zeropad
  {
    hide IsSigned;
  }

  lemma PaddingAside(f: Flags)
    ensures var g := WithoutPadding(f);
      g.left == f.left && g.precision == f.precision && g.zeropad == (f.zeropad && !f.precision)
  {}

  // ----- Base 2 -----

  lemma HalfResidue(v: nat, p: nat)
    requires p > 0
    ensures v / 2 % p * 2 + v % 2 == v % (2 * p)
  {
    var q := v / 2;
    var r := q % p * 2 + v % 2;
    var m := 2 * p;
    assert v == q / p * m + r by {
      assert q == q / p * p + q % p;
      assert q / p * p * 2 == q / p * m;
    }
    Bits.DivUnique(v, m, q / p, r);
  }

  /** Base 2 keeps as many of the lowest binary digits as there is room for. */
  lemma {:induction false} BinaryDigits(v: nat, upper: bool, room: nat)
    requires room > 0
    ensures var s := Reverse(Digits(v, 2, upper, room)); Parse(s, 2) == v % Bits.Pow2(room) && 0 < |s| <= room
    decreases room
  {
    hide Parse, Reverse, Digits, Bits.Pow2;
    BinarySplit(v, upper, room);
    DigitRoundTrip(v % 2, upper);
    if v / 2 != 0 && room > 1 {
      BinaryDigits(v / 2, upper, room - 1);
      MoreDigits(Digits(v / 2, 2, upper, room - 1), DigitChar(v % 2, upper), 2);
      DigitsAre(v / 2, upper, room - 1);
    } else {
      OneDigit(DigitChar(v % 2, upper), 2);
    }
  }

  lemma DigitsAre(v: nat, upper: bool, room: nat)
    requires room > 0
    ensures |Reverse(Digits(v, 2, upper, room))| == |Digits(v, 2, upper, room)|
  {}

  lemma BinarySplit(v: nat, upper: bool, room: nat)
    requires room > 0
    ensures Digits(v, 2, upper, room) ==
      [DigitChar(v % 2, upper)] + if v / 2 != 0 && room > 1 then Digits(v / 2, 2, upper, room - 1) else []
    ensures v % Bits.Pow2(room) == if v / 2 != 0 && room > 1 then v / 2 % Bits.Pow2(room - 1) * 2 + v % 2 else v % 2
  {
    hide Digits;
    HalfResidue(v, Bits.Pow2(room - 1));
    DigitsUnfold(v, upper, room);
  }

  lemma DigitsUnfold(v: nat, upper: bool, room: nat)
    requires room > 0
    ensures Digits(v, 2, upper, room) ==
      [DigitChar(v % 2, upper)] + if v / 2 != 0 && room > 1 then Digits(v / 2, 2, upper, room - 1) else []
  {}

  /** The field of a value in base 2: its lowest 32 digits. */
  lemma BinaryShape(v: nat, prec: nat, width: nat, f: Flags)
    requires !f.hash && !f.plus && !f.space && if f.precision then !f.zeropad else prec == 0
    ensures Ntoa(v, false, 2, prec, width, f) == IntegerField(Numeral(v, 2, f), "", prec, width, f)
    ensures Parse(Numeral(v, 2, f), 2) == v % 0x1_0000_0000
    ensures forall k :: 0 <= k < |Numeral(v, 2, f)| ==> Plain(Numeral(v, 2, f)[k])
  {
    hide Digits, Parse, Reverse, Repeat, Formatted, Field, IntegerField, Plain;
    var buf := Converted(v, 2, f);
    Bits.Pow2Values();
    ParseNone(2);
    ReverseNone();
    BinaryDigits(v, f.uppercase, NTOA_BUFFER);
    DigitsPlain(v, 2, f.uppercase, NTOA_BUFFER);
    ReversePlain(buf);
    if f.precision {
      PrecisionShape(buf, false, 2, prec, width, f);
    } else {
      FieldShape(buf, false, 2, width, f);
      WithoutPrecision(Numeral(v, 2, f), "", prec, width, f);
    }
  }

  /** %b prints at most 32 digits: an argument of its type is read back exactly when it has no more. */
  lemma BinaryReadsBack(n: int, conv: Conv)
    requires Fits('b', n, conv.flags) && !conv.flags.hash && (!conv.flags.precision ==> conv.prec == 0)
    ensures ReadBack(IntegerText('b', n, conv), 2) == n % 0x1_0000_0000
    ensures ReadBack(IntegerText('b', n, conv), 2) == n <==> n < 0x1_0000_0000
  {
    hide IntegerValue, ReadBack, Parse, Field, IntegerField, Numeral, Ntoa, IntegerFlags;
    CastExact('b', n, conv.flags);
    BinaryFlags(conv.flags);
    var f := IntegerFlags('b', conv.flags);
    BinaryShape(n, conv.prec, conv.width, f);
    IntegerFieldReadsBack(Numeral(n, 2, f), "", 2, conv.prec, conv.width, f);
  }

  lemma BinaryFlags(f: Flags)
    requires !f.hash
    ensures var g := IntegerFlags('b', f); !g.hash && !g.plus && !g.space && g.precision == f.precision
    ensures f.precision ==> !IntegerFlags('b', f).zeropad
  {}

  // ----- Letters -----

  /** A character of an integer's field, with letters of the one case. */
  predicate Shown(ch: char, upper: bool) {
    ch == ' ' || ch == '+' || ch == '-' || '0' <= ch <= '9' ||
    if upper then 'A' <= ch <= 'F' || ch == 'X' || ch == 'b' else 'a' <= ch <= 'f' || ch == 'x'
  }

  predicate AllShown(s: string, upper: bool) { forall k :: 0 <= k < |s| ==> Shown(s[k], upper) }

  lemma {:induction false} DigitsShown(v: nat, base: nat, upper: bool, room: nat)
    requires 2 <= base <= 16 && room > 0
    ensures AllShown(Digits(v, base, upper, room), upper)
    decreases room
  {
    if v / base != 0 && room > 1 { DigitsShown(v / base, base, upper, room - 1); }
  }

  lemma {:induction false} ReverseShown(s: string, upper: bool)
    requires AllShown(s, upper)
    ensures AllShown(Reverse(s), upper)
  {
    if s != [] { ReverseShown(s[..|s| - 1], upper); }
  }

  lemma PutShown(s: string, ch: char, upper: bool)
    requires AllShown(s, upper) && Shown(ch, upper)
    ensures AllShown(Put(s, ch), upper)
  {}

  lemma FillShown(s: string, target: nat, upper: bool)
    requires AllShown(s, upper)
    ensures AllShown(ZeroFill(s, target), upper)
  {}

  lemma HashedShown(s: string, base: nat, prec: nat, width: nat, f: Flags)
    requires AllShown(s, f.uppercase)
    ensures AllShown(Hashed(s, base, prec, width, f), f.uppercase)
  {
    hide Put;
    var b :=
      if !f.precision && s != [] && (|s| == prec || |s| == width) then
        if |s| > 1 && base == 16 then s[..|s| - 2] else s[..|s| - 1]
      else s;
    assert AllShown(b, f.uppercase);
    var x :=
      if base == 16 then Put(b, if f.uppercase then 'X' else 'x')
      else if base == 2 then Put(b, 'b')
      else b;
    if base == 16 { PutShown(b, if f.uppercase then 'X' else 'x', f.uppercase); }
    if base == 2 { PutShown(b, 'b', f.uppercase); }
    PutShown(x, '0', f.uppercase);
  }

  lemma BodyShown(buf: string, negative: bool, base: nat, prec: nat, width: nat, f: Flags)
    requires AllShown(buf, f.uppercase)
    ensures AllShown(FieldBody(buf, negative, base, prec, width, f), f.uppercase)
  {
    hide Put, ZeroFill, Hashed, AllShown, DigitWidth;
    var w := DigitWidth(negative, width, f);
    FillShown(buf, prec, f.uppercase);
    FillShown(ZeroFill(buf, prec), w, f.uppercase);
    var filled := if f.left then buf else if f.zeropad then ZeroFill(ZeroFill(buf, prec), w) else ZeroFill(buf, prec);
    HashedShown(filled, base, prec, w, f);
    var hashed := if f.hash then Hashed(filled, base, prec, w, f) else filled;
    PutShown(hashed, '-', f.uppercase);
    PutShown(hashed, '+', f.uppercase);
    PutShown(hashed, ' ', f.uppercase);
  }

  lemma PaddedShown(buf: string, width: nat, f: Flags)
    requires AllShown(buf, f.uppercase)
    ensures AllShown(Padded(buf, width, f), f.uppercase)
  {
    ReverseShown(buf, f.uppercase);
  }

  /** Whatever the flags, %X and %p print the letters of their digits in upper case, and the others in lower case. */
  lemma LettersOfOneCase(v: nat, negative: bool, base: nat, prec: nat, width: nat, f: Flags)
    requires 2 <= base <= 16
    ensures AllShown(Ntoa(v, negative, base, prec, width, f), f.uppercase)
  {
    hide AllShown, FieldBody, Padded, Digits, DigitWidth;
    var g := NoHashForZero(v, f);
    DigitsShown(v, base, f.uppercase, NTOA_BUFFER);
    NoneShown(f.uppercase);
    BodyShown(Converted(v, base, g), negative, base, prec, width, g);
    PaddedShown(FieldBody(Converted(v, base, g), negative, base, prec, width, g), DigitWidth(negative, width, g), g);
  }

  lemma NoneShown(upper: bool)
    ensures AllShown([], upper)
  {}

  lemma IntegerCase(c: char, n: int, conv: Conv)
    requires !conv.flags.uppercase
    ensures c == 'X' ==> forall k :: 0 <= k < |IntegerText(c, n, conv)| ==> Shown(IntegerText(c, n, conv)[k], true)
    ensures c != 'X' ==> forall k :: 0 <= k < |IntegerText(c, n, conv)| ==> Shown(IntegerText(c, n, conv)[k], false)
  {
    hide Ntoa, IntegerValue, BaseOf, Shown;
    var v, f := IntegerValue(c, n, conv.flags), IntegerFlags(c, conv.flags);
    LettersOfOneCase(if v > 0 then v else 0 - v, v < 0, BaseOf(c), conv.prec, conv.width, f);
  }

  // ----- Pointers -----

  /** A number below 16^n has at most n hexadecimal digits. */
  lemma {:induction false} HexCount(v: nat, upper: bool, room: nat, n: nat)
    requires 0 < n <= room && v < Bits.Pow2(4 * n)
    ensures |Digits(v, 16, upper, room)| <= n
    decreases n
  {
    HexStep(v, n);
    if v / 16 != 0 { HexCount(v / 16, upper, room - 1, n - 1); }
  }

  lemma HexStep(v: nat, n: nat)
    requires 0 < n && v < Bits.Pow2(4 * n)
    ensures v / 16 < Bits.Pow2(4 * (n - 1)) && (n == 1 ==> v / 16 == 0)
  {
    assert Bits.Pow2(4 * n) == 2 * Bits.Pow2(4 * n - 1) == 4 * Bits.Pow2(4 * n - 2) == 8 * Bits.Pow2(4 * n - 3)
        == 16 * Bits.Pow2(4 * n - 4);
  }

  lemma WordPower()
    ensures Bits.Pow2(64) == 0x1_0000_0000_0000_0000
  {
    Bits.Pow2Values();
    assert Bits.Pow2(36) == 0x10_0000_0000;
    assert Bits.Pow2(40) == 0x100_0000_0000;
    assert Bits.Pow2(44) == 0x1000_0000_0000;
    assert Bits.Pow2(48) == 0x1_0000_0000_0000;
    assert Bits.Pow2(52) == 0x10_0000_0000_0000;
    assert Bits.Pow2(56) == 0x100_0000_0000_0000;
    assert Bits.Pow2(60) == 0x1000_0000_0000_0000;
  }

  /** %p prints sixteen hexadecimal digits in upper case, which are the address. */
  lemma PointerReadsBack(n: int, conv: Conv)
    requires conv.flags == NO_FLAGS && conv.prec == 0
    ensures var text := PointerText(n, conv);
      && |text| == 16 && (forall k :: 0 <= k < 16 ==> '0' <= text[k] <= '9' || 'A' <= text[k] <= 'F')
      && Parse(text, 16) < 0x1_0000_0000_0000_0000 && (Parse(text, 16) - n) % 0x1_0000_0000_0000_0000 == 0
  {
    hide Ntoa, Digits, Parse, Repeat, Numeral, Field;
    var v := n % 0x1_0000_0000_0000_0000;
    var f := conv.flags.(zeropad := true, uppercase := true);
    UnsignedResidue(n, 0x1_0000_0000_0000_0000);
    NtoaShape(v, false, 16, 0, 16, f);
    WordPower();
    HexCount(v, true, NTOA_BUFFER, 16);
    HexField(v, f);
    ParseZeros(16 - |Numeral(v, 16, f)|, Numeral(v, 16, f), 16);
  }

  lemma HexField(v: nat, f: Flags)
    requires f.zeropad && f.uppercase && !f.left && !f.precision && |Digits(v, 16, true, NTOA_BUFFER)| <= 16
    ensures var d := Numeral(v, 16, f);
      && |d| <= 16 && Field(d, "", 16, f) == Repeat('0', 16 - |d|) + d
      && forall k :: 0 <= k < |d| ==> '0' <= d[k] <= '9' || 'A' <= d[k] <= 'F'
  {
    hide Digits, Repeat, Reverse;
    HexDigits(v, NTOA_BUFFER);
    ReverseHex(Digits(v, 16, true, NTOA_BUFFER));
    var d := Numeral(v, 16, f);
    assert "" + Repeat('0', 16 - |d|) + d == Repeat('0', 16 - |d|) + d;
  }

  predicate IsHex(s: string) { forall k :: 0 <= k < |s| ==> '0' <= s[k] <= '9' || 'A' <= s[k] <= 'F' }

  lemma {:induction false} HexDigits(v: nat, room: nat)
    requires room > 0
    ensures IsHex(Digits(v, 16, true, room))
    decreases room
  {
    if v / 16 != 0 && room > 1 { HexDigits(v / 16, room - 1); }
  }

  lemma {:induction false} ReverseHex(s: string)
    requires IsHex(s)
    ensures IsHex(Reverse(s))
  {
    if s != [] { ReverseHex(s[..|s| - 1]); }
  }
}
