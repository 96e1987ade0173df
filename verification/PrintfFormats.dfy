/**
  Formats of kernel/src/lib/printf.c, written and read: a format put together from plain text and conversions, each with
  flags, width, precision, length modifier and letter, renders to its parts. Strings and characters are said place by
  place.
 */
module PrintfFormats {
  import opened PrintfSpec
  import opened PrintfDigits
  import opened PrintfFields
  import Bits

  // ----- Strings and characters -----

  /** %s with a string whose first n characters are shown: all of them, or as many as the precision allows. */
  lemma StringPlaces(s: string, conv: Conv, n: nat)
    requires n <= |s| && '\0' !in s[..n]
    requires if conv.flags.precision && conv.prec <= n then conv.prec == n else n == |s| || s[n] == '\0'
    ensures var text := StringText(s, conv);
      && |text| == (if conv.width > n then conv.width else n)
      && (conv.flags.left ==> text[..n] == s[..n] && forall k :: n <= k < |text| ==> text[k] == ' ')
      && (!conv.flags.left ==>
            text[|text| - n..] == s[..n] && forall k :: 0 <= k < |text| - n ==> text[k] == ' ')
  {
    hide Repeat;
    CStringPrefix(s, n);
    var c := CString(s);
    var t := if conv.flags.precision && conv.prec < |c| then c[..conv.prec] else c;
    assert t == s[..n];
    NoRepeat(' ', 0);
    SpacedPlaces(t, conv.width, conv.flags.left);
  }

  lemma CStringPrefix(s: string, n: nat)
    requires n <= |s| && '\0' !in s[..n]
    ensures n <= |CString(s)| && CString(s)[..n] == s[..n]
    ensures n == |s| || s[n] == '\0' ==> |CString(s)| == n
  {
    var c := CString(s);
    if |c| > n && n < |s| { assert c[n] == s[n]; }
  }

  lemma SpacedPlaces(t: string, width: nat, left: bool)
    ensures var pad := width - |t|;
      var text := Repeat(' ', if left then 0 else pad) + t + Repeat(' ', if left then pad else 0);
      && |text| == (if width > |t| then width else |t|)
      && (left ==> text[..|t|] == t && forall k :: |t| <= k < |text| ==> text[k] == ' ')
      && (!left ==> text[|text| - |t|..] == t && forall k :: 0 <= k < |text| - |t| ==> text[k] == ' ')
  {}

  /** %c prints the argument's lowest byte on the side the flag asks for, and spaces up to the width. */
  lemma CharPlaces(n: int, conv: Conv)
    ensures var text := CharText(n, conv);
      && |text| == (if conv.width > 1 then conv.width else 1)
      && var at := if conv.flags.left then 0 else |text| - 1;
         && (text[at] as int - n) % 256 == 0 && text[at] as int < 256
         && forall k :: 0 <= k < |text| && k != at ==> text[k] == ' '
  {
    UnsignedResidue(n, 256);
  }

  // ----- Writing a conversion -----

  /** A width or a precision: not given, a decimal number, or taken from the arguments. */
  datatype Amount = Absent | Given(numeral: string) | Star

  /** A conversion as it is written; `dot` says whether there is a precision. */
  datatype Directive = Directive(flags: string, width: Amount, dot: bool, prec: Amount, length: string, letter: char)

  function AmountText(n: Amount): string {
    match n
    case Absent => ""
    case Given(numeral) => numeral
    case Star => "*"
  }

  function FromLength(d: Directive): string { d.length + [d.letter] }

  function FromDot(d: Directive): string {
    (if d.dot then "." + AmountText(d.prec) else "") + FromLength(d)
  }

  function FromWidth(d: Directive): string { AmountText(d.width) + FromDot(d) }

  function Written(d: Directive): string { d.flags + FromWidth(d) }

  predicate IsFlag(c: char) { c == '0' || c == '-' || c == '+' || c == ' ' || c == '#' }

  predicate AreFlags(s: string) { forall k :: 0 <= k < |s| ==> IsFlag(s[k]) }

  predicate IsNumeral(s: string) { s != [] && forall k :: 0 <= k < |s| ==> IsDigit(s[k]) }

  /** A conversion's letter, known or not: what cannot be taken for a part of the conversion before it. */
  predicate IsLetter(c: char) { !IsFlag(c) && !IsDigit(c) && c !in "*.hltjz" && c != '\0' }

  predicate IsLength(s: string) {
    s == "" || s == "h" || s == "hh" || s == "l" || s == "ll" || s == "t" || s == "j" || s == "z"
  }

  /** A width does not start with a zero, which would be a flag. */
  predicate DirectiveOk(d: Directive) {
    && AreFlags(d.flags) && IsLength(d.length) && IsLetter(d.letter)
    && (d.width.Given? ==> IsNumeral(d.width.numeral) && d.width.numeral[0] != '0')
    && (d.prec.Given? ==> IsNumeral(d.prec.numeral))
  }

  /** The value of a width or precision, of which an argument counts as an int. */
  function AmountValue(n: Amount, args: seq<Arg>, a: nat): Option<int> {
    match n
    case Absent => Some(0)
    case Given(numeral) => Some(Parse(numeral, 10) % 0x1_0000_0000)
    case Star => if a < |args| && args[a].Num? then Some(SignedOf(args[a].n, 0x8000_0000)) else None
  }

  function Stars(n: Amount): nat { if n.Star? then 1 else 0 }

  /** What a conversion at position i with argument a means. */
  function Meant(d: Directive, args: seq<Arg>, i: nat, a: nat): Option<Conv> {
    var w := AmountValue(d.width, args, a);
    var p := if d.dot then AmountValue(d.prec, args, a + Stars(d.width)) else Some(0);
    if w.None? || p.None? then None
    else
      var f := Flags('0' in d.flags, '-' in d.flags || w.value < 0, '+' in d.flags, ' ' in d.flags, '#' in d.flags,
        false, d.length == "hh", d.length == "h" || d.length == "hh",
        d.length == "l" || d.length == "ll" || d.length == "t" || d.length == "j" || d.length == "z",
        d.length == "ll", d.dot);
      Some(Conv(f, if w.value < 0 then 0 - w.value else w.value, if p.value > 0 then p.value else 0,
        i + |Written(d)| - 1, a + Stars(d.width) + if d.dot then Stars(d.prec) else 0))
  }

  // ----- Reading it back -----

  /** The text s is in the format at position i. */
  predicate Has(format: string, i: nat, s: string) {
    i + |s| <= |format| && format[i..i + |s|] == s
  }

  lemma HasParts(format: string, i: nat, s: string, t: string)
    requires Has(format, i, s + t)
    ensures Has(format, i, s) && Has(format, i + |s|, t)
  {
    assert format[i..i + |s|] == (s + t)[..|s|];
    assert format[i + |s|..i + |s| + |t|] == (s + t)[|s|..];
  }

  lemma HasAt(format: string, i: nat, s: string, k: nat)
    requires Has(format, i, s) && k < |s|
    ensures At(format, i + k) == s[k] && i + k < |format|
  {
    assert format[i..i + |s|][k] == format[i + k];
  }

  function WithFlags(f: Flags, s: string): Flags {
    f.(zeropad := f.zeropad || '0' in s, left := f.left || '-' in s, plus := f.plus || '+' in s,
       space := f.space || ' ' in s, hash := f.hash || '#' in s)
  }

  lemma {:induction false} FlagsRead(format: string, c: Conv, s: string)
    requires Has(format, c.i, s) && AreFlags(s) && !IsFlag(At(format, c.i + |s|))
    ensures ReadFlags(format, c) == c.(flags := WithFlags(c.flags, s), i := c.i + |s|)
    decreases |s|
  {
    if s == [] {
      NoFlags(c.flags);
    } else {
      HasAt(format, c.i, s, 0);
      assert [s[0]] + s[1..] == s;
      HasParts(format, c.i, [s[0]], s[1..]);
      FlagMeans(s[0], c.flags);
      var f := WithFlag(s[0], c.flags).value;
      FlagsRead(format, c.(flags := f, i := c.i + 1), s[1..]);
      FlagsAdd(c.flags, s);
    }
  }

  lemma NoFlags(f: Flags)
    ensures WithFlags(f, []) == f
  {}

  lemma FlagMeans(c: char, f: Flags)
    requires IsFlag(c)
    ensures WithFlag(c, f) == Some(WithFlags(f, [c]))
  {}

  lemma FlagsAdd(f: Flags, s: string)
    requires s != []
    ensures WithFlags(WithFlags(f, [s[0]]), s[1..]) == WithFlags(f, s)
  {
    forall c: char ensures c in s <==> c == s[0] || c in s[1..] {
      assert s == [s[0]] + s[1..];
    }
  }

  lemma DigitStep(p: nat, v: nat)
    ensures (p % 0x1_0000_0000 * 10 + v) % 0x1_0000_0000 == (p * 10 + v) % 0x1_0000_0000
  {
    var m := 0x1_0000_0000;
    var q := p / m;
    assert p * 10 + v == m * (q * 10) + (p % m * 10 + v);
    var t := p % m * 10 + v;
    Bits.DivUnique(p * 10 + v, m, q * 10 + t / m, t % m);
  }

  lemma NumberStep(format: string, i: nat, n: nat)
    requires i < |format| && IsDigit(format[i])
    ensures ReadNumber(format, i, n) ==
        ReadNumber(format, i + 1, (n * 10 + DigitValue(format[i])) % 0x1_0000_0000)
  {}

  lemma NumberEnd(format: string, i: nat, n: nat)
    requires i <= |format| && !IsDigit(At(format, i))
    ensures ReadNumber(format, i, n) == (n, i)
  {}

  /** A decimal number is read modulo 2^32, up to the first character that is no digit. */
  lemma {:induction false} NumberFrom(format: string, start: nat, i: nat, end: nat)
    requires start <= i <= end <= |format| && (forall k :: start <= k < end ==> IsDigit(format[k]))
    requires !IsDigit(At(format, end))
    ensures ReadNumber(format, i, Parse(format[start..i], 10) % 0x1_0000_0000)
         == (Parse(format[start..end], 10) % 0x1_0000_0000, end)
    decreases end - i
  {
    hide Parse, ReadNumber, At, DigitValue;
    var n := Parse(format[start..i], 10);
    if i < end {
      assert format[start..i + 1] == format[start..i] + [format[i]];
      ParseMore(format[start..i], format[i], 10);
      NumberStep(format, i, n % 0x1_0000_0000);
      DigitStep(n, DigitValue(format[i]));
      NumberFrom(format, start, i + 1, end);
    } else {
      NumberEnd(format, end, n % 0x1_0000_0000);
    }
  }

  lemma NumberRead(format: string, i: nat, numeral: string)
    requires Has(format, i, numeral) && IsNumeral(numeral) && !IsDigit(At(format, i + |numeral|))
    ensures ReadNumber(format, i, 0) == (Parse(numeral, 10) % 0x1_0000_0000, i + |numeral|)
  {
    hide Parse;
    forall k | i <= k < i + |numeral| ensures IsDigit(format[k]) { HasAt(format, i, numeral, k - i); }
    assert format[i..i] == [];
    ParseNone(10);
    NumberFrom(format, i, i, i + |numeral|);
  }

  lemma WidthRead(format: string, args: seq<Arg>, c: Conv, n: Amount)
    requires Has(format, c.i, AmountText(n)) && c.width == 0
    requires n.Given? ==> IsNumeral(n.numeral) && !IsDigit(At(format, c.i + |n.numeral|))
    requires n.Absent? ==> !IsDigit(At(format, c.i)) && At(format, c.i) != '*'
    ensures var w := AmountValue(n, args, c.a);
      ReadWidth(format, args, c) ==
        if w.None? then None
        else Some(c.(width := if w.value < 0 then 0 - w.value else w.value,
                     flags := if w.value < 0 then c.flags.(left := true) else c.flags,
                     i := c.i + |AmountText(n)|, a := c.a + Stars(n)))
  {
    hide SignedOf, Parse, ReadNumber;
    match n
    case Absent =>
    case Given(numeral) =>
      HasAt(format, c.i, numeral, 0);
      NumberRead(format, c.i, numeral);
    case Star =>
      HasAt(format, c.i, "*", 0);
  }

  lemma PrecisionRead(format: string, args: seq<Arg>, c: Conv, dot: bool, n: Amount)
    requires c.prec == 0 && !c.flags.precision
    requires if dot then Has(format, c.i, "." + AmountText(n)) else c.i <= |format| && At(format, c.i) != '.'
    requires dot && n.Given? ==> IsNumeral(n.numeral) && !IsDigit(At(format, c.i + 1 + |n.numeral|))
    requires dot && n.Absent? ==> !IsDigit(At(format, c.i + 1)) && At(format, c.i + 1) != '*'
    ensures var p := if dot then AmountValue(n, args, c.a) else Some(0);
      ReadPrecision(format, args, c) ==
        if p.None? then None
        else Some(c.(prec := if p.value > 0 then p.value else 0, flags := c.flags.(precision := dot),
                     i := c.i + (if dot then 1 + |AmountText(n)| else 0), a := c.a + if dot then Stars(n) else 0))
  {
    hide SignedOf, Parse, ReadNumber;
    if dot {
      HasParts(format, c.i, ".", AmountText(n));
      HasAt(format, c.i, ".", 0);
      match n
      case Absent =>
      case Given(numeral) =>
        HasAt(format, c.i + 1, numeral, 0);
        NumberRead(format, c.i + 1, numeral);
      case Star =>
        HasAt(format, c.i + 1, "*", 0);
    }
  }

  /** The flags of a length modifier. */
  function LengthFlags(f: Flags, s: string): Flags {
    f.(isChar := s == "hh", isShort := s == "h" || s == "hh",
       isLong := s == "l" || s == "ll" || s == "t" || s == "j" || s == "z", isLongLong := s == "ll")
  }

  predicate NoLength(f: Flags) { !f.isChar && !f.isShort && !f.isLong && !f.isLongLong }

  lemma LengthRead(format: string, c: Conv, s: string)
    requires IsLength(s) && Has(format, c.i, s) && NoLength(c.flags)
    requires IsLetter(At(format, c.i + |s|))
    ensures ReadLength(format, c) == c.(flags := LengthFlags(c.flags, s), i := c.i + |s|)
  {
    if s != "" { HasAt(format, c.i, s, 0); }
    if |s| == 2 { HasAt(format, c.i, s, 1); }
    LengthsDiffer(s);
  }

  lemma LengthsDiffer(s: string)
    ensures s == "hh" || s == "ll" ==> |s| == 2 && s[0] == s[1]
    ensures s == "h" || s == "l" || s == "t" || s == "j" || s == "z" ==> |s| == 1
  {}

  // What the parts of a conversion start with.

  lemma LengthStarts(d: Directive)
    requires DirectiveOk(d)
    ensures var c := FromLength(d)[0]; !IsDigit(c) && !IsFlag(c) && c != '*' && c != '.'
  {}

  lemma DotStarts(d: Directive)
    requires DirectiveOk(d)
    ensures FromDot(d) != [] && var c := FromDot(d)[0]; !IsDigit(c) && !IsFlag(c) && c != '*' && (c == '.' <==> d.dot)
  {
    LengthStarts(d);
  }

  lemma WidthStarts(d: Directive)
    requires DirectiveOk(d)
    ensures FromWidth(d) != [] && !IsFlag(FromWidth(d)[0])
  {
    DotStarts(d);
  }

  /** Where the width, the precision and the length modifier of a conversion at position i are. */
  function WidthAt(d: Directive, i: nat): nat { i + |d.flags| }

  function DotAt(d: Directive, i: nat): nat { WidthAt(d, i) + |AmountText(d.width)| }

  function LengthAt(d: Directive, i: nat): nat { DotAt(d, i) + if d.dot then 1 + |AmountText(d.prec)| else 0 }

  lemma FlagsPlaced(format: string, i: nat, d: Directive)
    requires DirectiveOk(d) && Has(format, i, Written(d))
    ensures Has(format, i, d.flags) && !IsFlag(At(format, WidthAt(d, i))) && Has(format, WidthAt(d, i), FromWidth(d))
  {
    hide Has, At, FromWidth, DirectiveOk;
    WidthStarts(d);
    HasParts(format, i, d.flags, FromWidth(d));
    HasAt(format, WidthAt(d, i), FromWidth(d), 0);
  }

  lemma WidthPlaced(format: string, i: nat, d: Directive)
    requires DirectiveOk(d) && Has(format, WidthAt(d, i), FromWidth(d))
    ensures Has(format, WidthAt(d, i), AmountText(d.width)) && Has(format, DotAt(d, i), FromDot(d))
    ensures !IsDigit(At(format, DotAt(d, i))) && At(format, DotAt(d, i)) != '*'
    ensures At(format, DotAt(d, i)) == '.' <==> d.dot
  {
    hide Has, At, FromDot, DirectiveOk, IsDigit;
    DotStarts(d);
    HasParts(format, WidthAt(d, i), AmountText(d.width), FromDot(d));
    HasAt(format, DotAt(d, i), FromDot(d), 0);
  }

  lemma LengthPlaced(format: string, i: nat, d: Directive)
    requires DirectiveOk(d) && Has(format, DotAt(d, i), FromDot(d))
    ensures d.dot ==> Has(format, DotAt(d, i), "." + AmountText(d.prec))
    ensures !IsDigit(At(format, LengthAt(d, i))) && At(format, LengthAt(d, i)) != '*'
    ensures Has(format, LengthAt(d, i), d.length) && At(format, LengthAt(d, i) + |d.length|) == d.letter
    ensures LengthAt(d, i) + |d.length| + 1 == i + |Written(d)| <= |format| && DotAt(d, i) <= |format|
  {
    hide DirectiveOk, IsDigit, AmountText;
    LengthStarts(d);
    HasParts(format, DotAt(d, i), if d.dot then "." + AmountText(d.prec) else "", FromLength(d));
    HasAt(format, LengthAt(d, i), FromLength(d), 0);
    HasParts(format, LengthAt(d, i), d.length, [d.letter]);
    HasAt(format, LengthAt(d, i) + |d.length|, [d.letter], 0);
  }

  lemma DirectiveParts(d: Directive)
    requires DirectiveOk(d)
    ensures AreFlags(d.flags) && IsLength(d.length) && IsLetter(d.letter)
    ensures d.width.Given? ==> IsNumeral(d.width.numeral)
    ensures d.prec.Given? ==> IsNumeral(d.prec.numeral)
  {}

  // The conversion after its flags, its width and its precision are read.

  function AfterFlags(d: Directive, i: nat, a: nat): Conv {
    Conv(WithFlags(NO_FLAGS, d.flags), 0, 0, WidthAt(d, i), a)
  }

  function AfterWidth(d: Directive, args: seq<Arg>, i: nat, a: nat): Option<Conv> {
    var c, w := AfterFlags(d, i, a), AmountValue(d.width, args, a);
    if w.None? then None
    else
      var f := if w.value < 0 then c.flags.(left := true) else c.flags;
      Some(Conv(f, if w.value < 0 then 0 - w.value else w.value, 0, DotAt(d, i), a + Stars(d.width)))
  }

  function AfterDot(d: Directive, args: seq<Arg>, i: nat, a: nat): Option<Conv> {
    var c := AfterWidth(d, args, i, a);
    var p := if d.dot then AmountValue(d.prec, args, a + Stars(d.width)) else Some(0);
    if c.None? || p.None? then None
    else
      var prec := if p.value > 0 then p.value else 0;
      Some(Conv(c.value.flags.(precision := d.dot), c.value.width, prec, LengthAt(d, i),
        c.value.a + if d.dot then Stars(d.prec) else 0))
  }

  lemma FlagsStep(format: string, i: nat, a: nat, d: Directive)
    requires DirectiveOk(d) && Has(format, i, Written(d))
    ensures i <= |format| && ReadFlags(format, Conv(NO_FLAGS, 0, 0, i, a)) == AfterFlags(d, i, a)
  {
    hide ReadFlags, AreFlags, DirectiveOk, At, IsFlag, Written;
    DirectiveParts(d);
    FlagsPlaced(format, i, d);
    FlagsRead(format, Conv(NO_FLAGS, 0, 0, i, a), d.flags);
  }

  lemma WidthStep(format: string, args: seq<Arg>, i: nat, a: nat, d: Directive)
    requires DirectiveOk(d) && Has(format, WidthAt(d, i), FromWidth(d))
    ensures WidthAt(d, i) <= |format| && ReadWidth(format, args, AfterFlags(d, i, a)) == AfterWidth(d, args, i, a)
  {
    hide ReadWidth, AmountValue, DirectiveOk, At, IsDigit, IsNumeral, FromWidth, WithFlags;
    DirectiveParts(d);
    WidthPlaced(format, i, d);
    WidthRead(format, args, AfterFlags(d, i, a), d.width);
  }

  lemma AfterWidthFlags(d: Directive, args: seq<Arg>, i: nat, a: nat)
    requires AfterWidth(d, args, i, a).Some?
    ensures var c := AfterWidth(d, args, i, a).value;
      !c.flags.precision && NoLength(c.flags) && c.prec == 0 && c.i == DotAt(d, i) && c.a == a + Stars(d.width)
  {
    hide AmountValue, WithFlags, DotAt;
    NoneYet(d.flags);
  }

  lemma AfterDotFlags(d: Directive, args: seq<Arg>, i: nat, a: nat)
    requires AfterDot(d, args, i, a).Some?
    ensures NoLength(AfterDot(d, args, i, a).value.flags) && AfterDot(d, args, i, a).value.i == LengthAt(d, i)
  {
    hide AmountValue, AfterWidth, LengthAt;
    AfterWidthFlags(d, args, i, a);
  }

  lemma DotStep(format: string, args: seq<Arg>, i: nat, a: nat, d: Directive)
    requires DirectiveOk(d) && Has(format, WidthAt(d, i), FromWidth(d)) && AfterWidth(d, args, i, a).Some?
    ensures DotAt(d, i) <= |format| &&
        ReadPrecision(format, args, AfterWidth(d, args, i, a).value) == AfterDot(d, args, i, a)
  {
    hide ReadPrecision, AmountValue, DirectiveOk, Has, At, IsDigit, IsNumeral, FromWidth, FromDot, AfterWidth;
    DirectiveParts(d);
    WidthPlaced(format, i, d);
    LengthPlaced(format, i, d);
    AfterWidthFlags(d, args, i, a);
    PrecisionRead(format, args, AfterWidth(d, args, i, a).value, d.dot, d.prec);
  }

  lemma NoneYet(s: string)
    ensures var f := WithFlags(NO_FLAGS, s); !f.precision && NoLength(f)
  {}

  lemma LengthStep(format: string, args: seq<Arg>, i: nat, a: nat, d: Directive)
    requires DirectiveOk(d) && Has(format, WidthAt(d, i), FromWidth(d)) && AfterDot(d, args, i, a).Some?
    ensures LengthAt(d, i) <= |format|
    ensures var c := AfterDot(d, args, i, a).value;
      ReadLength(format, c) == c.(flags := LengthFlags(c.flags, d.length), i := LengthAt(d, i) + |d.length|)
  {
    hide ReadLength, AmountValue, DirectiveOk, At, IsDigit, FromWidth, FromDot, AfterDot, LengthFlags, IsLength;
    DirectiveParts(d);
    WidthPlaced(format, i, d);
    LengthPlaced(format, i, d);
    AfterDotFlags(d, args, i, a);
    LengthRead(format, AfterDot(d, args, i, a).value, d.length);
  }

  lemma MeantSteps(d: Directive, args: seq<Arg>, i: nat, a: nat)
    ensures var c := AfterDot(d, args, i, a);
      Meant(d, args, i, a) == if c.None? then None
        else Some(c.value.(flags := LengthFlags(c.value.flags, d.length), i := LengthAt(d, i) + |d.length|))
  {
    hide AmountValue;
  }

  /** A conversion that is written is read as what it means. */
  lemma ConversionRead(format: string, args: seq<Arg>, i: nat, a: nat, d: Directive)
    requires DirectiveOk(d) && Has(format, i, Written(d))
    ensures ReadConversion(format, args, i, a) == Meant(d, args, i, a)
    ensures i + |Written(d)| <= |format| && At(format, i + |Written(d)| - 1) == d.letter
  {
    hide ReadFlags, ReadWidth, ReadPrecision, ReadLength, AfterFlags, DirectiveOk, Has, At, Written, FromWidth,
        FromDot, Meant, WithFlags, LengthFlags;
    FlagsPlaced(format, i, d);
    WidthPlaced(format, i, d);
    LengthPlaced(format, i, d);
    FlagsStep(format, i, a, d);
    WidthStep(format, args, i, a, d);
    MeantSteps(d, args, i, a);
    if AfterWidth(d, args, i, a).Some? {
      DotStep(format, args, i, a, d);
      if AfterDot(d, args, i, a).Some? { LengthStep(format, args, i, a, d); }
    }
  }

  // ----- Whole formats -----

  datatype Piece = Plain(text: string) | Order(directive: Directive)

  predicate PieceOk(p: Piece) {
    match p
    case Plain(text) => '%' !in text && '\0' !in text
    case Order(d) => DirectiveOk(d)
  }

  function PieceText(p: Piece): string {
    match p
    case Plain(text) => text
    case Order(d) => "%" + Written(d)
  }

  function FormatOf(ps: seq<Piece>): string {
    if ps == [] then "" else PieceText(ps[0]) + FormatOf(ps[1..])
  }

  predicate TakesOne(letter: char) { letter in "diuxXobcsp" }

  /** What a conversion prints of argument c.a: a number, a character, an address or a string; others are themselves. */
  function Printed(letter: char, args: seq<Arg>, c: Conv): Option<string> {
    if !TakesOne(letter) then Some([letter])
    else if c.a >= |args| then None
    else
      match args[c.a]
      case Str(s) => if letter == 's' then Some(StringText(s, c)) else None
      case Num(n) =>
        if letter in "diuxXob" then Some(IntegerText(letter, n, c))
        else if letter == 'c' then Some(CharText(n, c))
        else if letter == 'p' then Some(PointerText(n, c))
        else None
  }

  /** The output of a format's parts one after the other, from argument a on; None when an argument is missing. */
  function Output(ps: seq<Piece>, args: seq<Arg>, i: nat, a: nat): Option<string> {
    if ps == [] then Some("")
    else
      match ps[0]
      case Plain(text) =>
        var rest := Output(ps[1..], args, i + |text|, a);
        if rest.None? then None else Some(text + rest.value)
      case Order(d) =>
        var c := Meant(d, args, i + 1, a);
        var text := if c.None? then None else Printed(d.letter, args, c.value);
        if text.None? then None
        else
          var rest := Output(ps[1..], args, i + 1 + |Written(d)|, c.value.a + if TakesOne(d.letter) then 1 else 0);
          if rest.None? then None else Some(text.value + rest.value)
  }

  lemma {:induction false} PlainRendered(format: string, args: seq<Arg>, i: nat, a: nat, text: string)
    requires Has(format, i, text) && '%' !in text && '\0' !in text
    ensures i + |text| <= |format|
    ensures var rest := Render(format, args, i + |text|, a);
      Render(format, args, i, a) == if rest.None? then None else Some(text + rest.value)
    decreases |text|
  {
    hide ReadConversion, ConversionText;
    var rest := Render(format, args, i + |text|, a);
    if text == [] {
      if rest.Some? { assert [] + rest.value == rest.value; }
    } else {
      HasAt(format, i, text, 0);
      assert [text[0]] + text[1..] == text;
      HasParts(format, i, [text[0]], text[1..]);
      PlainRendered(format, args, i + 1, a, text[1..]);
      if rest.Some? { assert [text[0]] + (text[1..] + rest.value) == text + rest.value; }
    }
  }

  lemma PrintedIs(format: string, args: seq<Arg>, c: Conv, letter: char)
    requires At(format, c.i) == letter && letter != '\0'
    ensures ConversionText(format, args, c) == Printed(letter, args, c)
    ensures TakesArgument(letter) <==> TakesOne(letter)
  {
    hide IntegerText, CharText, PointerText, StringText, At;
  }

  lemma OrderRendered(format: string, args: seq<Arg>, i: nat, a: nat, d: Directive)
    requires DirectiveOk(d) && Has(format, i, "%" + Written(d))
    ensures i + 1 + |Written(d)| <= |format|
    ensures var c := Meant(d, args, i + 1, a);
      var text := if c.None? then None else Printed(d.letter, args, c.value);
      Render(format, args, i, a) ==
        if text.None? then None
        else
          var rest := Render(format, args, i + 1 + |Written(d)|, c.value.a + if TakesOne(d.letter) then 1 else 0);
          if rest.None? then None else Some(text.value + rest.value)
  {
    hide ReadConversion, ConversionText, Printed, TakesArgument, DirectiveOk, Written;
    HasAt(format, i, "%" + Written(d), 0);
    HasParts(format, i, "%", Written(d));
    ConversionRead(format, args, i + 1, a, d);
    DirectiveParts(d);
    assert d.letter != '\0';
    var c := Meant(d, args, i + 1, a);
    if c.Some? {
      MeantPlace(d, args, i + 1, a);
      PrintedIs(format, args, c.value, d.letter);
    }
  }

  lemma MeantPlace(d: Directive, args: seq<Arg>, i: nat, a: nat)
    requires Meant(d, args, i, a).Some?
    ensures Meant(d, args, i, a).value.i == i + |Written(d)| - 1
  {
    hide AmountValue;
  }

  lemma RenderNone(format: string, args: seq<Arg>, a: nat)
    ensures Render(format, args, |format|, a) == Some("")
  {}

  lemma PlainFirst(format: string, args: seq<Arg>, i: nat, a: nat, ps: seq<Piece>)
    requires ps != [] && ps[0].Plain? && PieceOk(ps[0]) && Has(format, i, PieceText(ps[0]))
    requires i + |ps[0].text| <= |format|
    requires Render(format, args, i + |ps[0].text|, a) == Output(ps[1..], args, i + |ps[0].text|, a)
    ensures Render(format, args, i, a) == Output(ps, args, i, a)
  {
    hide Has, Render, PieceOk;
    PieceParts(ps[0]);
    PlainRendered(format, args, i, a, ps[0].text);
  }

  /** The argument after those of a conversion; a where one is missing. */
  function NextArgument(d: Directive, args: seq<Arg>, i: nat, a: nat): nat {
    var c := Meant(d, args, i, a);
    if c.None? then a else c.value.a + if TakesOne(d.letter) then 1 else 0
  }

  lemma OrderFirst(format: string, args: seq<Arg>, i: nat, a: nat, ps: seq<Piece>)
    requires ps != [] && ps[0].Order? && PieceOk(ps[0]) && Has(format, i, PieceText(ps[0]))
    requires i + 1 + |Written(ps[0].directive)| <= |format|
    requires var j := i + 1 + |Written(ps[0].directive)|;
      var b := NextArgument(ps[0].directive, args, i + 1, a);
      Render(format, args, j, b) == Output(ps[1..], args, j, b)
    ensures Render(format, args, i, a) == Output(ps, args, i, a)
  {
    hide Has, Render, PieceOk, Meant, Printed, Written;
    PieceParts(ps[0]);
    OrderRendered(format, args, i, a, ps[0].directive);
  }

  lemma {:induction false} RenderFrom(format: string, args: seq<Arg>, i: nat, a: nat, ps: seq<Piece>)
    requires (forall k :: 0 <= k < |ps| ==> PieceOk(ps[k])) && Has(format, i, FormatOf(ps))
    requires i + |FormatOf(ps)| == |format|
    ensures Render(format, args, i, a) == Output(ps, args, i, a)
    decreases |ps|
  {
    hide Meant, NextArgument, Has, Written, PieceOk, Render;
    if ps == [] {
      RenderNone(format, args, a);
    } else {
      assert PieceOk(ps[0]);
      HasParts(format, i, PieceText(ps[0]), FormatOf(ps[1..]));
      hide Output;
      match ps[0]
      case Plain(text) =>
        RenderFrom(format, args, i + |text|, a, ps[1..]);
        PlainFirst(format, args, i, a, ps);
      case Order(d) =>
        RenderFrom(format, args, i + 1 + |Written(d)|, NextArgument(d, args, i + 1, a), ps[1..]);
        OrderFirst(format, args, i, a, ps);
    }
  }

  lemma PieceParts(p: Piece)
    requires PieceOk(p)
    ensures p.Plain? ==> '%' !in p.text && '\0' !in p.text
    ensures p.Order? ==> DirectiveOk(p.directive)
  {}

  /**
    A format put together from plain text and conversions renders to that text and to what the conversions print,
    each with the flags, width, precision and length modifier it was written with and the next argument.
   */
  lemma FormatReadsBack(ps: seq<Piece>, args: seq<Arg>)
    requires forall k :: 0 <= k < |ps| ==> PieceOk(ps[k])
    ensures Render(FormatOf(ps), args, 0, 0) == Output(ps, args, 0, 0)
  {
    hide PieceOk, Render;
    assert FormatOf(ps)[0..0 + |FormatOf(ps)|] == FormatOf(ps);
    RenderFrom(FormatOf(ps), args, 0, 0, ps);
  }
}
