/** What each conversion of `vsprintf_k` prints (core/print.c:223-448), for a directive written
    out of its parts. */
module Conversions {
  import opened Bits
  import opened Format
  import opened Itoa
  import opened Numerals

  // ---------------------------------------------------------------- two's complement

  predicate IsInt32(v: int, bits: int) {
    -0x8000_0000 <= v < 0x8000_0000 && (v - bits) % 0x1_0000_0000 == 0
  }

  predicate IsInt64(v: int, bits: int) {
    -0x8000_0000_0000_0000 <= v < 0x8000_0000_0000_0000 && (v - bits) % 0x1_0000_0000_0000_0000 == 0
  }

  /** `AsInt32` is the `int` with those 32 bits. */
  lemma AsInt32Exact(v: int, bits: int)
    ensures v == AsInt32(bits) <==> IsInt32(v, bits)
  {
  }

  /** `AsInt64` is the `long` with those 64 bits. */
  lemma AsInt64Exact(v: int, bits: Word)
    ensures v == AsInt64(bits) <==> IsInt64(v, bits)
  {
  }

  // ---------------------------------------------------------------- directives

  predicate FlagChar(c: char) {
    c == '-' || c == '+' || c == ' ' || c == '#' || c == '0'
  }

  predicate Qualifier(q: string) {
    q == "" || q == "h" || q == "l" || q == "L" || q == "Z"
  }

  /** No other part of a directive starts with the character. */
  predicate ConvChar(c: char) {
    && !FlagChar(c) && !IsDigit(c) && c != '*' && c != '.' && c != '\0'
    && c != 'h' && c != 'l' && c != 'L' && c != 'Z'
  }

  /** A width or precision: none, digits, or `*` with its argument. */
  datatype Count = Absent | Given(digits: string) | Star(bits: Word) {
    function Text(): string {
      match this
      case Absent => ""
      case Given(digits) => digits
      case Star(_) => "*"
    }

    function Taken(): seq<Arg> {
      if Star? then [Num(bits)] else []
    }

    predicate WellFormed() {
      Given? ==> digits != "" && forall i :: 0 <= i < |digits| ==> IsDigit(digits[i])
    }
  }

  datatype Dir = Dir(flags: string, width: Count, dot: bool, precision: Count, qualifier: string, conv: char) {
    predicate WellFormed() {
      && (forall i :: 0 <= i < |flags| ==> FlagChar(flags[i]))
      && width.WellFormed() && (width.Given? ==> width.digits[0] != '0')
      && precision.WellFormed() && (!dot ==> precision.Absent?)
      && Qualifier(qualifier) && ConvChar(conv)
    }

    function Tail(): string { qualifier + [conv] }

    function FromPrecision(): string { (if dot then "." + precision.Text() else "") + Tail() }

    function FromWidth(): string { width.Text() + FromPrecision() }

    /** The directive behind its percent sign. */
    function Body(): string { flags + FromWidth() }

    function Text(): string { "%" + Body() }

    /** The arguments that `*` takes. */
    function Taken(): seq<Arg> { width.Taken() + precision.Taken() }

    /** The field width: none, the number, or the size of the argument, at most 256. */
    function Field(): int {
      match width
      case Absent => -1
      case Given(digits) => AsInt32(Read(digits, 10))
      case Star(bits) =>
        var v := AsInt32(bits);
        if v == -0x8000_0000 then v
        else if v > 256 || v < -256 then 256
        else if v < 0 then -v
        else v
    }

    /** The precision: none, 0 behind a lone dot, or the number; a negative one is 0. */
    function Limit(): int {
      if !dot then -1
      else
        match precision
        case Absent => 0
        case Given(digits) => Max(0, AsInt32(Read(digits, 10)))
        case Star(bits) => Max(0, AsInt32(bits))
    }

    /** The flags that stand in the directive; a negative width from an argument is one, too. */
    function Flagged(): Flags {
      Flags('0' in flags, false, '+' in flags, ' ' in flags,
            '-' in flags || (width.Star? && AsInt32(width.bits) < 0), '#' in flags, false)
    }

    /** What a conversion is given of the directive. */
    function Parts(rest: seq<Arg>): Spec { Spec(Flagged(), Field(), Limit(), qualifier == "l", rest) }
  }

  // ---------------------------------------------------------------- reading a directive

  function With(flags: Flags, s: string): Flags {
    Flags(flags.zeropad || '0' in s, flags.signed, flags.plus || '+' in s, flags.space || ' ' in s,
          flags.left || '-' in s, flags.special || '#' in s, flags.lowercase)
  }

  lemma WithStep(flags: Flags, s: string)
    requires s != "" && FlagChar(s[0])
    ensures With(SetFlag(s[0], flags), s[1..]) == With(flags, s)
  {
    assert s == [s[0]] + s[1..];
  }

  lemma {:induction false} FlagsWritten(s: string, tail: string, flags: Flags)
    requires (forall i :: 0 <= i < |s| ==> FlagChar(s[i])) && !IsFlag(Front(tail))
    ensures AfterFlags(s + tail) == tail && FlagsIn(s + tail, flags) == With(flags, s)
    decreases |s|
  {
    if s == "" {
      assert s + tail == tail;
    } else {
      assert (s + tail)[1..] == s[1..] + tail;
      FlagsWritten(s[1..], tail, SetFlag(s[0], flags));
      WithStep(flags, s);
    }
  }

  lemma DigitsWritten(digits: string, tail: string)
    requires (forall i :: 0 <= i < |digits| ==> IsDigit(digits[i])) && !IsDigit(Front(tail))
    ensures AfterDigits(digits + tail) == tail && Number(digits + tail) == AsInt32(Read(digits, 10))
  {
    var f, n := digits + tail, |digits|;
    DigitsStop(digits, tail);
    assert f[n..] == tail && f[..n] == digits;
  }

  lemma DigitsStop(digits: string, tail: string)
    requires (forall i :: 0 <= i < |digits| ==> IsDigit(digits[i])) && !IsDigit(Front(tail))
    ensures DigitsEnd(digits + tail, 0) == |digits|
  {
    var f, n := digits + tail, |digits|;
    assert At(f, n) == Front(tail);
    forall j | 0 <= j < n
      ensures IsDigit(At(f, j))
    {
      assert f[j] == digits[j];
    }
    DigitsEndIs(f, 0, n);
  }

  lemma WidthWritten(c: Count, tail: string, rest: seq<Arg>)
    requires c.WellFormed() && !IsDigit(Front(tail)) && Front(tail) != '*'
    ensures var f, args := c.Text() + tail, c.Taken() + rest;
            && AfterWidth(f) == tail && ArgsAfterWidth(f, args) == rest
            && WidthOf(f, args) == Dir("", c, false, Absent, "", 'd').Field()
            && forall flags :: FlagsAfterWidth(f, args, flags)
                                == if c.Star? && AsInt32(c.bits) < 0 then flags.(left := true) else flags
  {
    var f, args := c.Text() + tail, c.Taken() + rest;
    match c
    case Absent => assert f == tail && args == rest;
    case Given(digits) =>
      DigitsWritten(digits, tail);
      assert args == rest;
    case Star(bits) =>
      assert f[1..] == tail && args[1..] == rest;
  }

  lemma PrecisionWritten(dot: bool, c: Count, tail: string, rest: seq<Arg>)
    requires c.WellFormed() && (!dot ==> c.Absent?)
    requires !IsDigit(Front(tail)) && Front(tail) != '*' && Front(tail) != '.'
    ensures var f, args := (if dot then "." + c.Text() else "") + tail, c.Taken() + rest;
            && AfterPrecision(f) == tail && ArgsAfterPrecision(f, args) == rest
            && PrecisionOf(f, args) == Dir("", Absent, dot, c, "", 'd').Limit()
  {
    var f, args := (if dot then "." + c.Text() else "") + tail, c.Taken() + rest;
    if !dot {
      assert f == tail && args == rest;
    } else {
      assert f[1..] == c.Text() + tail;
      match c
      case Absent => assert f[1..] == tail && args == rest;
      case Given(digits) =>
        DigitsWritten(digits, tail);
        assert args == rest;
      case Star(bits) =>
        assert f[1..][1..] == tail && args[1..] == rest;
    }
  }

  lemma QualifierWritten(q: string, c: char)
    requires Qualifier(q) && ConvChar(c)
    ensures AfterQualifier(q + [c]) == [c] && (Front(q + [c]) == 'l' <==> q == "l")
  {
    assert q != "" ==> (q + [c])[1..] == [c];
  }

  lemma FrontOf(a: string, b: string)
    ensures Front(a + b) == if a == "" then Front(b) else a[0]
  {
  }

  // The character at which each part ends.
  lemma PartsEnd(d: Dir)
    requires d.WellFormed()
    ensures !IsDigit(Front(d.Tail())) && Front(d.Tail()) != '*' && Front(d.Tail()) != '.'
    ensures !IsDigit(Front(d.FromPrecision())) && Front(d.FromPrecision()) != '*'
    ensures !IsFlag(Front(d.FromWidth()))
  {
    FrontOf(d.qualifier, [d.conv]);
    FrontOf(if d.dot then "." + d.precision.Text() else "", d.Tail());
    FrontOf(d.width.Text(), d.FromPrecision());
  }

  // What the parts say, put together.
  lemma SpecFrom(f: string, f1: string, f2: string, f3: string, args: seq<Arg>, args1: seq<Arg>, sp: Spec)
    requires f1 == AfterFlags(f) && f2 == AfterWidth(f1) && f3 == AfterPrecision(f2)
    requires args1 == ArgsAfterWidth(f1, args) && sp.args == ArgsAfterPrecision(f2, args1)
    requires sp.flags == FlagsAfterWidth(f1, args, FlagsIn(f, NO_FLAGS))
    requires sp.width == WidthOf(f1, args) && sp.precision == PrecisionOf(f2, args1)
    requires sp.long <==> Front(f3) == 'l'
    ensures AfterSpec(f) == AfterQualifier(f3) && SpecOf(f, args) == sp
  {
  }

  lemma FlaggedIs(d: Dir)
    ensures d.Flagged() == (var flags := With(NO_FLAGS, d.flags);
                            if d.width.Star? && AsInt32(d.width.bits) < 0 then flags.(left := true) else flags)
  {
  }

  /** Reading a directive gives back the parts it was written from. */
  lemma PartsReadBack(d: Dir, rest: seq<Arg>)
    requires d.WellFormed()
    ensures AfterSpec(d.Body()) == [d.conv]
    ensures SpecOf(d.Body(), d.Taken() + rest) == d.Parts(rest)
  {
    var rest1 := d.precision.Taken() + rest;
    assert d.Taken() + rest == d.width.Taken() + rest1;
    PartsEnd(d);
    FlagsWritten(d.flags, d.FromWidth(), NO_FLAGS);
    WidthWritten(d.width, d.FromPrecision(), rest1);
    PrecisionWritten(d.dot, d.precision, d.Tail(), rest);
    QualifierWritten(d.qualifier, d.conv);
    FlaggedIs(d);
    SpecFrom(d.Body(), d.FromWidth(), d.FromPrecision(), d.Tail(), d.Taken() + rest, rest1,
             d.Parts(rest));
  }

  lemma BodyNulFree(d: Dir)
    requires d.WellFormed()
    ensures NulFree(d.Text())
  {
    assert NulFree(d.flags) && NulFree(d.width.Text()) && NulFree(d.precision.Text()) && NulFree(d.qualifier);
  }

  // A directive alone: its conversion, and the arguments that leaves.
  lemma Alone(d: Dir, rest: seq<Arg>)
    requires d.WellFormed()
    ensures NulFree(d.Text()) && Complete(d.Text())
    ensures Formatted(d.Text(), d.Taken() + rest)
         == Convert(d.conv, d.Parts(rest))
  {
    PartsReadBack(d, rest);
    BodyNulFree(d);
    assert d.Text()[1..] == d.Body() && [d.conv][1..] == "";
    var out := Directive(d.Body(), d.Taken() + rest);
    assert Formatted("", out.args) == Out("", out.args);
    assert out.text + "" == out.text;
  }

  // ---------------------------------------------------------------- numbers

  function Base(conv: char): nat {
    if conv == 'b' then 2 else if conv == 'o' then 8 else 16
  }

  predicate UnsignedConv(c: char) { c == 'b' || c == 'o' || c == 'x' || c == 'X' }

  predicate SignedConv(c: char) { c == 'd' || c == 'i' }

  predicate KnownConv(c: char) {
    UnsignedConv(c) || SignedConv(c) || c == 'c' || c == 's' || c == 'p' || c == 'u' || c == 'n' || c == '%'
  }

  lemma FirstArgument(x: Word, rest: seq<Arg>)
    ensures NextBits([Num(x)] + rest) == x && Later([Num(x)] + rest) == rest
  {
    assert ([Num(x)] + rest)[1..] == rest;
  }

  lemma UnsignedIs(sp: Spec, x: Word, rest: seq<Arg>, flags: Flags, value: nat)
    requires sp.args == [Num(x)] + rest && !flags.signed
    requires value == if sp.long then x else x % 0x1_0000_0000
    ensures IsValue(value, UnsignedArg(sp), flags)
  {
    FirstArgument(x, rest);
  }

  lemma UnsignedCases(sp: Spec)
    ensures Convert('b', sp) == Rendered(UnsignedArg(sp), sp.width, 2, sp, sp.flags)
    ensures Convert('o', sp) == Rendered(UnsignedArg(sp), sp.width, 8, sp, sp.flags)
    ensures Convert('x', sp) == Rendered(UnsignedArg(sp), sp.width, 16, sp, sp.flags.(lowercase := true))
    ensures Convert('X', sp) == Rendered(UnsignedArg(sp), sp.width, 16, sp, sp.flags)
  {
  }

  lemma UnsignedConverts(c: char, sp: Spec, x: Word, rest: seq<Arg>, value: nat)
    requires UnsignedConv(c) && sp.args == [Num(x)] + rest
    requires value == (if sp.long then x else x % 0x1_0000_0000) && !sp.flags.signed
    ensures Convert(c, sp).args == rest
    ensures IsRendering(Convert(c, sp).text, value, false, sp.width, Base(c), sp.precision,
                        sp.flags.(lowercase := sp.flags.lowercase || c == 'x'))
  {
    FirstArgument(x, rest);
    var flags := sp.flags.(lowercase := sp.flags.lowercase || c == 'x');
    UnsignedIs(sp, x, rest, flags, value);
    UnsignedCases(sp);
    assert c != 'x' ==> flags == sp.flags;
    RenderShows(UnsignedArg(sp), sp.width, Base(c), sp.precision, flags, value);
  }

  /** The unsigned conversions print all 64 bits of a long argument and the low 32 bits of any
      other, in base 2, 8 or 16, with the letters of the case of the conversion. */
  lemma PrintsUnsigned(d: Dir, x: Word, rest: seq<Arg>, value: nat)
    requires d.WellFormed() && UnsignedConv(d.conv)
    requires value == if d.qualifier == "l" then x else x % 0x1_0000_0000
    ensures var out := Formatted(d.Text(), d.Taken() + ([Num(x)] + rest));
            && out.args == rest
            && IsRendering(out.text, value, false, d.Field(), Base(d.conv), d.Limit(),
                           d.Flagged().(lowercase := d.conv == 'x'))
  {
    Alone(d, [Num(x)] + rest);
    UnsignedConverts(d.conv, d.Parts([Num(x)] + rest), x, rest, value);
  }

  lemma PointerConverts(sp: Spec, x: Word, rest: seq<Arg>)
    requires sp.args == [Num(x)] + rest && !sp.flags.signed
    ensures Convert('p', sp).args == rest
    ensures if sp.width == -1 then
              IsRendering(Convert('p', sp).text, x, false, 16, 16, sp.precision, sp.flags.(zeropad := true))
            else
              IsRendering(Convert('p', sp).text, x, false, sp.width, 16, sp.precision, sp.flags)
  {
    FirstArgument(x, rest);
    if sp.width == -1 {
      RenderShows(AsInt64(x), 16, 16, sp.precision, sp.flags.(zeropad := true), x);
    } else {
      RenderShows(AsInt64(x), sp.width, 16, sp.precision, sp.flags, x);
    }
  }

  /** A pointer prints all 64 bits in base 16, by default on 16 zero-padded digits. */
  lemma PrintsPointer(d: Dir, x: Word, rest: seq<Arg>)
    requires d.WellFormed() && d.conv == 'p'
    ensures var out := Formatted(d.Text(), d.Taken() + ([Num(x)] + rest));
            && out.args == rest
            && if d.Field() == -1 then
                 IsRendering(out.text, x, false, 16, 16, d.Limit(), d.Flagged().(zeropad := true))
               else
                 IsRendering(out.text, x, false, d.Field(), 16, d.Limit(), d.Flagged())
  {
    Alone(d, [Num(x)] + rest);
    PointerConverts(d.Parts([Num(x)] + rest), x, rest);
  }

  /** The two's complement value of an argument of 64 bits, or of its low 32. */
  predicate IsArgument(v: int, x: Word, long: bool) {
    if long then IsInt64(v, x) else IsInt32(v, x)
  }

  lemma ArgumentIs(v: int, x: Word, sp: Spec, rest: seq<Arg>)
    requires IsArgument(v, x, sp.long) && sp.args == [Num(x)] + rest
    ensures v == DecimalArg(sp) && Later(sp.args) == rest
  {
    FirstArgument(x, rest);
    AsInt32Exact(v, x);
    AsInt64Exact(v, x);
  }

  lemma SignedCases(sp: Spec)
    ensures Convert('d', sp) == Rendered(DecimalArg(sp), sp.width, 10, sp, sp.flags.(signed := true))
         == Convert('i', sp)
  {
  }

  lemma SignedConverts(c: char, sp: Spec, x: Word, rest: seq<Arg>, v: int)
    requires SignedConv(c) && sp.args == [Num(x)] + rest && IsArgument(v, x, sp.long)
    ensures Convert(c, sp).args == rest
    ensures IsRendering(Convert(c, sp).text, if v < 0 then -v else v, v < 0, sp.width, 10, sp.precision,
                        sp.flags.(signed := true))
  {
    ArgumentIs(v, x, sp, rest);
    SignedCases(sp);
    RenderShows(v, sp.width, 10, sp.precision, sp.flags.(signed := true), if v < 0 then -v else v);
  }

  /** The signed conversions print the two's complement value of the argument: a minus sign and
      the digits of `-v`, or the digits of `v`. */
  lemma PrintsSigned(d: Dir, x: Word, rest: seq<Arg>, v: int)
    requires d.WellFormed() && SignedConv(d.conv) && IsArgument(v, x, d.qualifier == "l")
    ensures var out := Formatted(d.Text(), d.Taken() + ([Num(x)] + rest));
            && out.args == rest
            && IsRendering(out.text, if v < 0 then -v else v, v < 0, d.Field(), 10, d.Limit(),
                           d.Flagged().(signed := true))
  {
    Alone(d, [Num(x)] + rest);
    SignedConverts(d.conv, d.Parts([Num(x)] + rest), x, rest, v);
  }

  lemma WidenedCase(sp: Spec)
    ensures Convert('u', sp) == Rendered(DecimalArg(sp), sp.width, 10, sp, sp.flags)
  {
  }

  lemma WidenedConverts(sp: Spec, x: Word, rest: seq<Arg>, v: int)
    requires sp.args == [Num(x)] + rest && IsArgument(v, x, sp.long) && !sp.flags.signed
    ensures Convert('u', sp).args == rest
    ensures IsRendering(Convert('u', sp).text, if v < 0 then v + 0x1_0000_0000_0000_0000 else v, false, sp.width, 10,
                        sp.precision, sp.flags)
  {
    ArgumentIs(v, x, sp, rest);
    WidenedCase(sp);
    RenderShows(v, sp.width, 10, sp.precision, sp.flags, if v < 0 then v + 0x1_0000_0000_0000_0000 else v);
  }

  /** `%u` prints the same value without a minus sign: as a 64-bit number when it is negative. */
  lemma PrintsWidened(d: Dir, x: Word, rest: seq<Arg>, v: int)
    requires d.WellFormed() && d.conv == 'u' && IsArgument(v, x, d.qualifier == "l")
    ensures var out := Formatted(d.Text(), d.Taken() + ([Num(x)] + rest));
            && out.args == rest
            && IsRendering(out.text, if v < 0 then v + 0x1_0000_0000_0000_0000 else v, false, d.Field(), 10,
                           d.Limit(), d.Flagged())
  {
    Alone(d, [Num(x)] + rest);
    WidenedConverts(d.Parts([Num(x)] + rest), x, rest, v);
  }

  // ---------------------------------------------------------------- characters and strings

  predicate AllBlank(text: string) {
    forall i :: 0 <= i < |text| ==> text[i] == ' '
  }

  /** `shown` with blanks on one side, as wide as the field. */
  predicate Padded(text: string, shown: string, width: int, left: bool) {
    && |text| == Max(width, |shown|)
    && if left then shown <= text && AllBlank(text[|shown|..])
       else AllBlank(text[..|text| - |shown|]) && text[|text| - |shown|..] == shown
  }

  /** The characters of `s` up to a NUL, and no more than the precision. */
  predicate Cut(shown: string, s: string, precision: int) {
    && shown <= s && NulFree(shown) && (precision >= 0 ==> |shown| <= precision)
    && (|shown| == |s| || s[|shown|] == '\0' || |shown| == precision)
  }

  lemma CharPadded(c: char, width: int, left: bool)
    ensures Padded(CharText(c, width, left), [c], width, left)
  {
  }

  lemma StringPadded(s: string, width: int, precision: int, left: bool)
    ensures Padded(StringText(s, width, precision, left), if 0 <= precision < |s| then s[..precision] else s,
                   width, left)
  {
  }

  /** `%c` prints the character with the low 8 bits of its argument. */
  lemma PrintsChar(d: Dir, x: Word, rest: seq<Arg>)
    requires d.WellFormed() && d.conv == 'c'
    ensures var out := Formatted(d.Text(), d.Taken() + ([Num(x)] + rest));
            out.args == rest && Padded(out.text, [(x % 256) as char], d.Field(), d.Flagged().left)
  {
    Alone(d, [Num(x)] + rest);
    FirstArgument(x, rest);
    CharPadded((x % 256) as char, d.Field(), d.Flagged().left);
  }

  lemma {:induction false} CStringIs(s: string)
    ensures CString(s) <= s && NulFree(CString(s)) && (|CString(s)| == |s| || s[|CString(s)|] == '\0')
    decreases |s|
  {
    if s != "" && s[0] != '\0' {
      CStringIs(s[1..]);
      assert s == [s[0]] + s[1..];
    }
  }

  lemma StringConverts(sp: Spec, s: string, rest: seq<Arg>) returns (shown: string)
    requires sp.args == [Text(s)] + rest
    ensures Convert('s', sp).args == rest
    ensures Cut(shown, s, sp.precision) && Padded(Convert('s', sp).text, shown, sp.width, sp.flags.left)
  {
    assert sp.args[1..] == rest;
    CStringIs(s);
    var c := CString(s);
    shown := if 0 <= sp.precision < |c| then c[..sp.precision] else c;
    StringPadded(c, sp.width, sp.precision, sp.flags.left);
  }

  /** `%s` prints the string cut at its end and to the precision. */
  lemma PrintsString(d: Dir, s: string, rest: seq<Arg>) returns (shown: string)
    requires d.WellFormed() && d.conv == 's'
    ensures var out := Formatted(d.Text(), d.Taken() + ([Text(s)] + rest));
            && out.args == rest
            && Cut(shown, s, d.Limit()) && Padded(out.text, shown, d.Field(), d.Flagged().left)
  {
    Alone(d, [Text(s)] + rest);
    shown := StringConverts(d.Parts([Text(s)] + rest), s, rest);
  }

  lemma NullConverts(sp: Spec, rest: seq<Arg>)
    requires sp.args == [Null] + rest
    ensures Convert('s', sp) == Out("", rest)
  {
    assert sp.args[1..] == rest;
  }

  /** And nothing, not even blanks, for a null pointer. */
  lemma PrintsNull(d: Dir, rest: seq<Arg>)
    requires d.WellFormed() && d.conv == 's'
    ensures Formatted(d.Text(), d.Taken() + ([Null] + rest)) == Out("", rest)
  {
    Alone(d, [Null] + rest);
    NullConverts(d.Parts([Null] + rest), rest);
  }

  // ---------------------------------------------------------------- the other directives

  lemma OtherConverts(c: char, sp: Spec)
    ensures Convert('%', sp) == Out("%", sp.args) && Convert('n', sp) == Out("", Later(sp.args))
    ensures !KnownConv(c) && c != '\0' ==> Convert(c, sp) == Out("%" + [c], sp.args)
  {
  }

  /** `%%` takes no argument; `%n` takes one and prints nothing; any other character is printed
      behind a percent sign. */
  lemma PrintsOther(d: Dir, rest: seq<Arg>, arg: Arg)
    requires d.WellFormed()
    ensures d.conv == '%' ==> Formatted(d.Text(), d.Taken() + rest) == Out("%", rest)
    ensures d.conv == 'n' ==> Formatted(d.Text(), d.Taken() + ([arg] + rest)) == Out("", rest)
    ensures !KnownConv(d.conv) ==> Formatted(d.Text(), d.Taken() + rest) == Out("%" + [d.conv], rest)
  {
    Alone(d, rest);
    Alone(d, [arg] + rest);
    OtherConverts(d.conv, d.Parts(rest));
    OtherConverts(d.conv, d.Parts([arg] + rest));
    assert ([arg] + rest)[1..] == rest;
  }

  // ---------------------------------------------------------------- directives among text

  predicate Plain(text: string) {
    forall i :: 0 <= i < |text| ==> text[i] != '%' && text[i] != '\0'
  }

  lemma {:induction false} PlainPrints(text: string, args: seq<Arg>)
    requires Plain(text)
    ensures NulFree(text) && Complete(text) && Formatted(text, args) == Out(text, args)
    decreases |text|
  {
    if text != "" {
      PlainPrints(text[1..], args);
      assert text == [text[0]] + text[1..];
    }
  }

  /** Any format can go on behind a directive. */
  lemma AnyContinuation(d: Dir, after: string, args: seq<Arg>)
    requires d.WellFormed()
    ensures Appends(d.Text(), after, args)
  {
    Alone(d, []);
    FormatAppend(d.Text(), after, args);
  }

  /** Between two pieces of text a directive prints what it prints alone. */
  lemma AmongText(before: string, d: Dir, after: string, args: seq<Arg>)
    requires d.WellFormed() && Plain(before) && Plain(after)
    ensures var out := Formatted(d.Text(), args);
            Formatted(before + (d.Text() + after), args) == Out(before + (out.text + after), out.args)
  {
    var out := Formatted(d.Text(), args);
    PlainPrints(before, args);
    PlainPrints(after, out.args);
    AnyContinuation(d, after, args);
    FormatAppend(before, d.Text() + after, args);
  }

  // ---------------------------------------------------------------- formats of the kernel

  lemma FieldOfTwo(d: Dir)
    requires d.width == Given("18") || d.width == Given("5")
    ensures d.Field() == if d.width == Given("18") then 18 else 5
  {
    assert Read("1", 10) == 1 && Read("5", 10) == 5;
    ReadSnoc("1", '8', 10);
    assert "18" == "1" + ['8'];
  }

  lemma SixteenDigits()
    ensures Pow(16, 8) == 0x1_0000_0000 && Pow(16, 16) == 0x1_0000_0000_0000_0000
  {
    assert Pow(16, 4) == 0x1_0000;
    assert Pow(16, 8) == 16 * (16 * (16 * (16 * Pow(16, 4))));
    assert Pow(16, 12) == 16 * (16 * (16 * (16 * Pow(16, 8))));
    assert Pow(16, 16) == 16 * (16 * (16 * (16 * Pow(16, 12))));
  }

  function HexDir(): Dir { Dir("#0", Given("18"), false, Absent, "l", 'x') }

  lemma HexText()
    ensures HexDir().WellFormed() && HexDir().Text() == "%#018lx"
  {
  }

  /** The format of core/main.c:49 prints every 64-bit number as `0x` and its sixteen digits. */
  lemma HexAddress(x: Word)
    ensures var out := Formatted("%#018lx", [Num(x)]);
            && out.args == [] && |out.text| == 18 && out.text[..2] == "0x"
            && AllDigits(out.text[2..], 16, true) && Read(out.text[2..], 16) == x
  {
    var d := HexDir();
    HexLayout(x);
    SixteenDigits();
    var text := Formatted("%#018lx", [Num(x)]).text;
    var t, body := ZeroPadded(text, x, false, 18, 16, -1, d.Flagged().(lowercase := true));
    assert text[2..] == body;
    SmallModulo(x, Pow(16, 16));
  }

  lemma HexFlags()
    ensures HexDir().Flagged().(lowercase := true) == Flags(true, false, false, false, false, true, true)
  {
  }

  lemma HexLayout(x: Word)
    ensures var out, flags := Formatted("%#018lx", [Num(x)]), HexDir().Flagged().(lowercase := true);
            && out.args == [] && flags == Flags(true, false, false, false, false, true, true)
            && IsRendering(out.text, x, false, 18, 16, -1, flags)
  {
    var d := HexDir();
    FieldOfTwo(d);
    HexText();
    HexFlags();
    assert d.Taken() + ([Num(x)] + []) == [Num(x)];
    PrintsUnsigned(d, x, [], x);
  }

  lemma AddressShown(text: string, x: Word, digits: string, flags: Flags)
    requires x == 0xFFFF_8000_0000_1000 && digits == "ffff800000001000" && text == "0x" + digits
    requires flags == Flags(true, false, false, false, false, true, true)
    ensures IsRendering(text, x, false, 18, 16, -1, flags)
  {
    ReadAddress();
    var t := Parts.Parts(0, "", "0x", 0, digits, 0);
    assert t.Text() == text;
    assert Shows(t, digits, x, false, 18, 16, -1, flags);
  }

  lemma AddressText(text: string, other: string, x: Word, flags: Flags)
    requires x == 0xFFFF_8000_0000_1000 && IsRendering(text, x, false, 18, 16, -1, flags)
    requires flags == Flags(true, false, false, false, false, true, true)
    requires other == "0x" + "ffff800000001000"
    ensures text == other
  {
    AddressShown(other, x, "ffff800000001000", flags);
    RenderingUnique(text, other, x, false, 18, 16, -1, flags);
  }

  lemma AddressString()
    ensures "0x" + "ffff800000001000" == "0xffff800000001000"
  {
  }

  /** And so the number of that line as `0xffff800000001000`. */
  lemma KernelAddress(x: Word)
    requires x == 0xFFFF_8000_0000_1000
    ensures Formatted("%#018lx", [Num(x)]) == Out("0xffff800000001000", [])
  {
    HexLayout(x);
    AddressString();
    AddressText(Formatted("%#018lx", [Num(x)]).text, "0xffff800000001000", x,
                HexDir().Flagged().(lowercase := true));
  }

  lemma ReadFour(a: char, b: char, c: char, d: char)
    ensures Read([a, b, c, d], 16)
         == 4096 * CharValue(a) + 256 * CharValue(b) + 16 * CharValue(c) + CharValue(d)
  {
    assert Read([], 16) == 0;
    ReadSnoc([], a, 16);
    ReadSnoc([a], b, 16);
    ReadSnoc([a, b], c, 16);
    ReadSnoc([a, b, c], d, 16);
    assert [] + [a] == [a] && [a] + [b] == [a, b] && [a, b] + [c] == [a, b, c] && [a, b, c] + [d] == [a, b, c, d];
  }

  lemma ReadEight(a: string, b: string)
    requires |b| == 4
    ensures Read(a + b, 16) == 0x1_0000 * Read(a, 16) + Read(b, 16)
  {
    ReadAppend(a, b, 16);
    assert Pow(16, 4) == 0x1_0000;
  }

  lemma ReadAddress()
    ensures Read("ffff800000001000", 16) == 0xFFFF_8000_0000_1000
  {
    ReadFour('f', 'f', 'f', 'f');
    ReadFour('8', '0', '0', '0');
    ReadFour('0', '0', '0', '0');
    ReadFour('1', '0', '0', '0');
    ReadEight("ffff", "8000");
    ReadEight("ffff8000", "0000");
    ReadEight("ffff80000000", "1000");
    assert "ffff8000" == "ffff" + "8000" && "ffff80000000" == "ffff8000" + "0000";
    assert "ffff800000001000" == "ffff80000000" + "1000";
  }

  lemma FiveLayout(x: Word, v: int)
    requires IsInt32(v, x)
    ensures var out := Formatted("%05d", [Num(x)]);
            && out.args == []
            && IsRendering(out.text, if v < 0 then -v else v, v < 0, 5, 10, -1,
                           Flags(true, true, false, false, false, false, false))
  {
    var d := Dir("0", Given("5"), false, Absent, "", 'd');
    FieldOfTwo(d);
    assert d.Text() == "%05d" && d.Taken() + ([Num(x)] + []) == [Num(x)];
    PrintsSigned(d, x, [], v);
  }

  /** The `%05d` of core/init/x86_64/BIOS/memory.c:42: five characters, the digits of an `int` modulo
      that power of ten, or a minus sign and four. */
  lemma FiveDigits(x: Word, v: int)
    requires IsInt32(v, x)
    ensures var out := Formatted("%05d", [Num(x)]);
            && out.args == [] && |out.text| == 5
            && if v < 0 then
                 out.text[0] == '-' && AllDigits(out.text[1..], 10, false) && Read(out.text[1..], 10) == -v % 10000
               else
                 AllDigits(out.text, 10, false) && Read(out.text, 10) == v % 100000
  {
    FiveLayout(x, v);
    FiveText(Formatted("%05d", [Num(x)]).text, v);
  }

  lemma FiveText(text: string, v: int)
    requires IsRendering(text, if v < 0 then -v else v, v < 0, 5, 10, -1,
                         Flags(true, true, false, false, false, false, false))
    ensures |text| == 5
    ensures v < 0 ==> text[0] == '-' && AllDigits(text[1..], 10, false) && Read(text[1..], 10) == -v % 10000
    ensures v >= 0 ==> AllDigits(text, 10, false) && Read(text, 10) == v % 100000
  {
    var flags := Flags(true, true, false, false, false, false, false);
    assert Pow(10, 4) == 10000 && Pow(10, 5) == 100000;
    var t, body := ZeroPadded(text, if v < 0 then -v else v, v < 0, 5, 10, -1, flags);
    if v < 0 { assert text[1..] == body; } else { assert text == body; }
  }

  lemma BitmapLayout(n: nat, x: Word)
    requires n <= 256
    ensures var out := Formatted("%0*lb", [Num(n), Num(x)]);
            && out.args == []
            && IsRendering(out.text, x, false, n, 2, -1, Flags(true, false, false, false, false, false, false))
  {
    var d := Dir("0", Star(n), false, Absent, "l", 'b');
    assert d.Text() == "%0*lb" && d.Taken() + ([Num(x)] + []) == [Num(n), Num(x)];
    assert d.Field() == n;
    PrintsUnsigned(d, x, [], x);
  }

  /** The `%0*lb` of core/main.c:85 prints as many binary digits as asked for, up to 256: the
      low bits of the word. */
  lemma BitmapLine(n: nat, x: Word)
    requires n <= 256
    ensures var out := Formatted("%0*lb", [Num(n), Num(x)]);
            && out.args == [] && |out.text| == n && AllDigits(out.text, 2, false)
            && Pow(2, n) > 0 && Read(out.text, 2) == x % Pow(2, n)
  {
    BitmapLayout(n, x);
    BitmapText(Formatted("%0*lb", [Num(n), Num(x)]).text, n, x);
  }

  lemma BitmapText(text: string, n: nat, x: Word)
    requires IsRendering(text, x, false, n, 2, -1, Flags(true, false, false, false, false, false, false))
    ensures |text| == n && AllDigits(text, 2, false) && Pow(2, n) > 0 && Read(text, 2) == x % Pow(2, n)
  {
    var t, body := ZeroPadded(text, x, false, n, 2, -1, Flags(true, false, false, false, false, false, false));
    assert text == body;
  }

  /** It is printed so between any two pieces of text. */
  lemma AddressAmongText(before: string, after: string, x: Word)
    requires x == 0xFFFF_8000_0000_1000 && Plain(before) && Plain(after)
    ensures Formatted(before + (HexDir().Text() + after), [Num(x)])
         == Out(before + ("0xffff800000001000" + after), [])
  {
    HexText();
    KernelAddress(x);
    AmongText(before, HexDir(), after, [Num(x)]);
  }
}
