/** The format-string interpreter `vsprintf_k` (core/print.c:207-452).

    A `char *` that the code steps through a string is the rest of that string: `fmt++` is
    `fmt[1..]`, and the terminator is the end of the string or an embedded NUL. */
module Format {
  import opened Bits
  import opened Options
  import opened Itoa

  /** An argument in the variable part of the call: a 64-bit pattern or a string pointer. */
  datatype Arg = Num(bits: Word) | Text(s: string) | Null

  /** `va_arg` takes the next argument.  Taking one that is missing, or a string for a number,
      is undefined in C; the model then delivers 0 or a null pointer. */
  function NextBits(args: seq<Arg>): Word {
    if args != [] && args[0].Num? then args[0].bits else 0
  }

  function NextText(args: seq<Arg>): Option<string> {
    if args != [] && args[0].Text? then Some(CString(args[0].s)) else None
  }

  function Later(args: seq<Arg>): seq<Arg> {
    if args == [] then [] else args[1..]
  }

  /** The characters before the first NUL. */
  function CString(s: string): string {
    if s == "" || s[0] == '\0' then "" else [s[0]] + CString(s[1..])
  }

  function AsInt64(bits: Word): (n: int)
    ensures -TWO63 <= n < TWO63
  {
    if bits < TWO63 then bits else bits - TWO64
  }

  // ---------------------------------------------------------------- a directive, part by part

  function Front(f: string): char {
    if f == "" then '\0' else f[0]
  }

  predicate IsFlag(c: char) {
    c == '-' || c == '+' || c == ' ' || c == '#' || c == '0'
  }

  function SetFlag(c: char, flags: Flags): Flags {
    if c == '-' then flags.(left := true)
    else if c == '+' then flags.(plus := true)
    else if c == ' ' then flags.(space := true)
    else if c == '#' then flags.(special := true)
    else flags.(zeropad := true)
  }

  function AfterFlags(f: string): (r: string)
    ensures |r| <= |f|
  {
    if IsFlag(Front(f)) then AfterFlags(f[1..]) else f
  }

  function FlagsIn(f: string, flags: Flags): Flags {
    if IsFlag(Front(f)) then FlagsIn(f[1..], SetFlag(f[0], flags)) else flags
  }

  function AfterDigits(f: string): (r: string)
    ensures |r| <= |f|
  {
    f[DigitsEnd(f, 0)..]
  }

  /** The number in front of `f`, in 32 bits. */
  function Number(f: string): int {
    AsInt32(Read(f[..DigitsEnd(f, 0)], 10))
  }

  function AfterWidth(f: string): (r: string)
    ensures |r| <= |f|
  {
    if IsDigit(Front(f)) then AfterDigits(f)
    else if Front(f) == '*' then f[1..]
    else f
  }

  /** A width from an argument is cut to 256; a negative one also left-justifies. */
  function WidthOf(f: string, args: seq<Arg>): int {
    if IsDigit(Front(f)) then Number(f)
    else if Front(f) == '*' then
      var w := AsInt32(NextBits(args));
      var v := if w < 0 then AsInt32(-w) else w;
      if v > 256 then 256 else v
    else -1
  }

  function FlagsAfterWidth(f: string, args: seq<Arg>, flags: Flags): Flags {
    if !IsDigit(Front(f)) && Front(f) == '*' && AsInt32(NextBits(args)) < 0 then flags.(left := true) else flags
  }

  function ArgsAfterWidth(f: string, args: seq<Arg>): seq<Arg> {
    if !IsDigit(Front(f)) && Front(f) == '*' then Later(args) else args
  }

  function AfterPrecision(f: string): (r: string)
    ensures |r| <= |f|
  {
    if Front(f) != '.' then f
    else
      var f1 := f[1..];
      if IsDigit(Front(f1)) then AfterDigits(f1)
      else if Front(f1) == '*' then f1[1..]
      else f1
  }

  function PrecisionOf(f: string, args: seq<Arg>): int {
    if Front(f) != '.' then -1
    else if IsDigit(Front(f[1..])) then Max(0, Number(f[1..]))
    else if Front(f[1..]) == '*' then Max(0, AsInt32(NextBits(args)))
    else 0
  }

  function ArgsAfterPrecision(f: string, args: seq<Arg>): seq<Arg> {
    if Front(f) == '.' && !IsDigit(Front(f[1..])) && Front(f[1..]) == '*' then Later(args) else args
  }

  predicate IsQualifier(c: char) {
    c == 'h' || c == 'l' || c == 'L' || c == 'Z'
  }

  function AfterQualifier(f: string): (r: string)
    ensures |r| <= |f|
  {
    if IsQualifier(Front(f)) then f[1..] else f
  }

  /** What follows flags, width, precision and qualifier: the conversion character. */
  function AfterSpec(f: string): (r: string)
    ensures |r| <= |f|
  {
    AfterQualifier(AfterPrecision(AfterWidth(AfterFlags(f))))
  }

  /** The parts of a directive that a conversion uses. */
  datatype Spec = Spec(flags: Flags, width: int, precision: int, long: bool, args: seq<Arg>)

  function SpecOf(f: string, args: seq<Arg>): Spec {
    var f1 := AfterFlags(f);
    var f2 := AfterWidth(f1);
    var args1 := ArgsAfterWidth(f1, args);
    Spec(FlagsAfterWidth(f1, args, FlagsIn(f, NO_FLAGS)), WidthOf(f1, args), PrecisionOf(f2, args1),
         Front(AfterPrecision(f2)) == 'l', ArgsAfterPrecision(f2, args1))
  }

  // ---------------------------------------------------------------- conversions

  datatype Out = Out(text: string, args: seq<Arg>)

  function CharText(c: char, width: int, left: bool): string {
    if left then [c] + Repeat(' ', width - 1) else Repeat(' ', width - 1) + [c]
  }

  function StringText(s: string, width: int, precision: int, left: bool): string {
    var shown := if 0 <= precision < |s| then s[..precision] else s;
    if left then shown + Repeat(' ', width - |shown|) else Repeat(' ', width - |shown|) + shown
  }

  /** An argument printed without regard to its sign. */
  function UnsignedArg(sp: Spec): (n: int)
    ensures -TWO63 <= n < TWO63
  {
    if sp.long then AsInt64(NextBits(sp.args)) else NextBits(sp.args) % TWO32
  }

  /** An argument of the decimal conversions; `u` reads it as a signed one too. */
  function DecimalArg(sp: Spec): (n: int)
    ensures -TWO63 <= n < TWO63
  {
    if sp.long then AsInt64(NextBits(sp.args)) else AsInt32(NextBits(sp.args))
  }

  function Rendered(num: int, width: int, base: nat, sp: Spec, flags: Flags): Out
    requires BaseInRange(base) && -TWO63 <= num < TWO63
  {
    Out(Render(num, width, base, sp.precision, flags), Later(sp.args))
  }

  function Convert(c: char, sp: Spec): Out {
    var w := sp.width;
    match c
    case 'c' => Out(CharText((NextBits(sp.args) % 256) as char, w, sp.flags.left), Later(sp.args))
    case 's' =>
      (match NextText(sp.args)
       case None => Out("", Later(sp.args))
       case Some(s) => Out(StringText(s, w, sp.precision, sp.flags.left), Later(sp.args)))
    case 'b' => Rendered(UnsignedArg(sp), w, 2, sp, sp.flags)
    case 'o' => Rendered(UnsignedArg(sp), w, 8, sp, sp.flags)
    case 'p' =>
      if w == -1 then Rendered(AsInt64(NextBits(sp.args)), 16, 16, sp, sp.flags.(zeropad := true))
      else Rendered(AsInt64(NextBits(sp.args)), w, 16, sp, sp.flags)
    case 'x' => Rendered(UnsignedArg(sp), w, 16, sp, sp.flags.(lowercase := true))
    case 'X' => Rendered(UnsignedArg(sp), w, 16, sp, sp.flags)
    case 'd' => Rendered(DecimalArg(sp), w, 10, sp, sp.flags.(signed := true))
    case 'i' => Rendered(DecimalArg(sp), w, 10, sp, sp.flags.(signed := true))
    case 'u' => Rendered(DecimalArg(sp), w, 10, sp, sp.flags)
    case 'n' => Out("", Later(sp.args))
    case '%' => Out("%", sp.args)
    case '\0' => Out("%", sp.args)
    case _ => Out(['%', c], sp.args)
  }

  /** One directive, `f` being what follows its percent sign. */
  function Directive(f: string, args: seq<Arg>): Out {
    Convert(Front(AfterSpec(f)), SpecOf(f, args))
  }

  function AfterDirective(f: string): (r: string)
    ensures |r| <= |f|
  {
    var conv := AfterSpec(f);
    if Front(conv) == '\0' then conv else conv[1..]
  }

  /** The text of a format, and the arguments it leaves. */
  function Formatted(f: string, args: seq<Arg>): Out
    decreases |f|
  {
    if Front(f) == '\0' then Out("", args)
    else if f[0] != '%' then
      var rest := Formatted(f[1..], args);
      Out([f[0]] + rest.text, rest.args)
    else
      var out := Directive(f[1..], args);
      var rest := Formatted(AfterDirective(f[1..]), out.args);
      Out(out.text + rest.text, rest.args)
  }

  // ---------------------------------------------------------------- vsprintf_k

  /** Flags, width, precision and qualifier (core/print.c:225-304). */
  method ReadSpec(f: string, args: seq<Arg>) returns (fmt: string, sp: Spec)
    ensures fmt == AfterSpec(f) && sp == SpecOf(f, args)
  {
    var flags := NO_FLAGS;
    fmt := f;
    while IsFlag(Front(fmt))
      invariant |fmt| <= |f|
      invariant AfterFlags(fmt) == AfterFlags(f) && FlagsIn(fmt, flags) == FlagsIn(f, NO_FLAGS)
      decreases |fmt|
    {
      flags := SetFlag(fmt[0], flags);
      fmt := fmt[1..];
    }

    ghost var f1 := fmt;
    var fieldWidth, rest := -1, args;
    if IsDigit(Front(fmt)) {
      var next;
      fieldWidth, next := AtoiK(fmt, 0);
      fmt := fmt[next..];
    } else if Front(fmt) == '*' {
      fmt := fmt[1..];
      fieldWidth := AsInt32(NextBits(rest));
      rest := Later(rest);
      if fieldWidth < 0 {
        fieldWidth := AsInt32(-fieldWidth);
        flags := flags.(left := true);
      }
      if fieldWidth > 256 { fieldWidth := 256; }
    }
    assert fmt == AfterWidth(f1) && fieldWidth == WidthOf(f1, args) && rest == ArgsAfterWidth(f1, args);

    ghost var f2, args1 := fmt, rest;
    var precision := -1;
    fmt, precision, rest := ReadPrecision(fmt, rest);

    var qualifier := '\0';
    if IsQualifier(Front(fmt)) {
      qualifier := fmt[0];
      fmt := fmt[1..];
    }
    sp := Spec(flags, fieldWidth, precision, qualifier == 'l', rest);
  }

  method ReadPrecision(f: string, args: seq<Arg>) returns (fmt: string, precision: int, rest: seq<Arg>)
    ensures fmt == AfterPrecision(f) && precision == PrecisionOf(f, args) && rest == ArgsAfterPrecision(f, args)
  {
    fmt, precision, rest := f, -1, args;
    if Front(fmt) == '.' {
      fmt := fmt[1..];
      if IsDigit(Front(fmt)) {
        var next;
        precision, next := AtoiK(fmt, 0);
        fmt := fmt[next..];
      } else if Front(fmt) == '*' {
        fmt := fmt[1..];
        precision := AsInt32(NextBits(rest));
        rest := Later(rest);
      }
      if precision < 0 { precision := 0; }
    }
  }

  /** `%c`: the width counts the character, and the second loop starts where the first has
      left the counter (core/print.c:310-327). */
  method WriteChar(buf: array<char>, str: nat, c: char, width: int, left: bool, ghost orig: seq<char>,
                   ghost text: string)
    returns (p: nat)
    requires Wrote(buf, orig, text) && str == |text| && str + |CharText(c, width, left)| <= buf.Length
    modifies buf
    ensures p == str + |CharText(c, width, left)| && Wrote(buf, orig, text + CharText(c, width, left))
  {
    var fieldWidth := width;
    p := str;
    ghost var pads := Repeat(' ', width - 1);
    if !left {
      p, fieldWidth := Pad(buf, p, ' ', fieldWidth - 1, orig, text);
      fieldWidth := fieldWidth + 1;
      p := Put(buf, p, c, orig, text + pads);
      p, fieldWidth := Pad(buf, p, ' ', fieldWidth - 1, orig, text + pads + [c]);
      assert text + pads + [c] + [] == text + (pads + [c]);
    } else {
      p := Put(buf, p, c, orig, text);
      p, fieldWidth := Pad(buf, p, ' ', fieldWidth - 1, orig, text + [c]);
      assert text + [c] + pads == text + ([c] + pads);
    }
  }

  /** `%s` (core/print.c:329-363). */
  method WriteString(buf: array<char>, str: nat, s: string, width: int, precision: int, left: bool,
                     ghost orig: seq<char>, ghost text: string)
    returns (p: nat)
    requires Wrote(buf, orig, text) && str == |text| && str + |StringText(s, width, precision, left)| <= buf.Length
    modifies buf
    ensures p == str + |StringText(s, width, precision, left)|
    ensures Wrote(buf, orig, text + StringText(s, width, precision, left))
  {
    var len, fieldWidth := |s|, width;
    if 0 <= precision && len > precision { len := precision; }
    var shown := s[..len];
    assert shown == if 0 <= precision < |s| then s[..precision] else s;
    p := str;
    ghost var lead := if left then [] else Repeat(' ', width - len);
    assert text + [] == text;
    if !left {
      p, fieldWidth := Pad(buf, p, ' ', fieldWidth - len, orig, text);
      fieldWidth := fieldWidth + len;
    }
    p := Copy(buf, p, shown, orig, text + lead);
    ghost var trail := Repeat(' ', fieldWidth - len);
    p, fieldWidth := Pad(buf, p, ' ', fieldWidth - len, orig, text + lead + shown);
    StringPieces(s, width, precision, left, text, lead, shown, trail);
  }

  lemma StringPieces(s: string, width: int, precision: int, left: bool, text: string, lead: string, shown: string,
                     trail: string)
    requires shown == if 0 <= precision < |s| then s[..precision] else s
    requires if left then lead == []
             && trail == Repeat(' ', width - |shown|) else lead == Repeat(' ', width - |shown|) && trail == []
    ensures text + lead + shown + trail == text + StringText(s, width, precision, left)
  {
    if left { assert text + [] == text; }
  }

  method Copy(buf: array<char>, str: nat, s: string, ghost orig: seq<char>, ghost text: string) returns (p: nat)
    requires Wrote(buf, orig, text) && str == |text| && str + |s| <= buf.Length
    modifies buf
    ensures p == str + |s| && Wrote(buf, orig, text + s)
  {
    p := str;
    var i := 0;
    assert text + s[..0] == text;
    while i < |s|
      invariant 0 <= i <= |s| && p == str + i && Wrote(buf, orig, text + s[..i])
    {
      p := Put(buf, p, s[i], orig, text + s[..i]);
      assert text + s[..i] + [s[i]] == text + s[..i + 1];
      i := i + 1;
    }
    assert s[..i] == s;
  }

  method WriteNumeral(buf: array<char>, str: nat, num: int, width: int, base: int, sp: Spec, flags: Flags,
                      ghost orig: seq<char>, ghost text: string)
    returns (p: nat, rest: seq<Arg>)
    requires BaseInRange(base) && -TWO63 <= num < TWO63
    requires Wrote(buf, orig, text) && str == |text| && str + |Rendered(num, width, base, sp, flags).text| <= buf.Length
    modifies buf
    ensures p == str + |Rendered(num, width, base, sp, flags).text|
            && rest == Rendered(num, width, base, sp, flags).args
    ensures Wrote(buf, orig, text + Rendered(num, width, base, sp, flags).text)
  {
    var end := ItoaK(buf, str, num, width, base, sp.precision, flags, orig, text);
    p, rest := end.value, Later(sp.args);
  }

  /** The second switch (core/print.c:308-448). */
  method WriteConversion(buf: array<char>, str: nat, c: char, sp: Spec, ghost orig: seq<char>, ghost text: string)
    returns (p: nat, rest: seq<Arg>)
    requires Wrote(buf, orig, text) && str == |text| && str + |Convert(c, sp).text| <= buf.Length
    modifies buf
    ensures p == str + |Convert(c, sp).text| && rest == Convert(c, sp).args
    ensures Wrote(buf, orig, text + Convert(c, sp).text)
  {
    p, rest := str, sp.args;
    var w, flags := sp.width, sp.flags;
    match c
    case 'c' =>
      p := WriteChar(buf, str, (NextBits(sp.args) % 256) as char, w, flags.left, orig, text);
      rest := Later(sp.args);
    case 's' =>
      rest := Later(sp.args);
      var s := NextText(sp.args);
      if s.Some? {
        p := WriteString(buf, str, s.value, w, sp.precision, flags.left, orig, text);
      } else {
        assert text + [] == text;
      }
    case 'b' => p, rest := WriteNumeral(buf, str, UnsignedArg(sp), w, 2, sp, flags, orig, text);
    case 'o' => p, rest := WriteNumeral(buf, str, UnsignedArg(sp), w, 8, sp, flags, orig, text);
    case 'p' =>
      if w == -1 {
        w := 16;
        flags := flags.(zeropad := true);
      }
      p, rest := WriteNumeral(buf, str, AsInt64(NextBits(sp.args)), w, 16, sp, flags, orig, text);
    case 'x' => p, rest := WriteNumeral(buf, str, UnsignedArg(sp), w, 16, sp, flags.(lowercase := true), orig, text);
    case 'X' => p, rest := WriteNumeral(buf, str, UnsignedArg(sp), w, 16, sp, flags, orig, text);
    case 'd' => p, rest := WriteNumeral(buf, str, DecimalArg(sp), w, 10, sp, flags.(signed := true), orig, text);
    case 'i' => p, rest := WriteNumeral(buf, str, DecimalArg(sp), w, 10, sp, flags.(signed := true), orig, text);
    case 'u' => p, rest := WriteNumeral(buf, str, DecimalArg(sp), w, 10, sp, flags, orig, text);
    case 'n' =>
      rest := Later(sp.args);
      assert text + [] == text;
    case '%' => p := Put(buf, str, '%', orig, text);
    case _ =>
      p := Put(buf, str, '%', orig, text);
      if c != '\0' {
        p := Put(buf, p, c, orig, text + ['%']);
        assert text + ['%'] + [c] == text + ['%', c];
      }
  }

  /** Writes the text of the format and a terminator, and returns the length of the text.  At
      the end of the string the pointer is stepped back before the loop steps it forward. */
  method VsprintfK(buf: array<char>, fmt: Option<string>, args: seq<Arg>) returns (count: nat)
    requires fmt.Some? ==> |Formatted(fmt.value, args).text| < buf.Length
    modifies buf
    ensures fmt.None? ==> count == 0 && buf[..] == old(buf[..])
    ensures fmt.Some? ==>
              var text := Formatted(fmt.value, args).text;
              count == |text| && Wrote(buf, old(buf[..]), text + ['\0'])
  {
    if fmt.None? { return 0; }
    ghost var orig := buf[..];
    var f, rest, str := fmt.value, args, 0;
    ghost var text := "";
    ghost var whole := Formatted(fmt.value, args).text;
    while Front(f) != '\0'
      invariant str == |text| && Wrote(buf, orig, text)
      invariant whole == text + Formatted(f, rest).text
      decreases |f|
    {
      if f[0] != '%' {
        PutKeeps(whole, text, [f[0]], Formatted(f[1..], rest).text);
        str := Put(buf, str, f[0], orig, text);
        text := text + [f[0]];
        f := f[1..];
        continue;
      }
      f := f[1..];
      ghost var out := Directive(f, rest);
      PutKeeps(whole, text, out.text, Formatted(AfterDirective(f), out.args).text);
      var conv, sp := ReadSpec(f, rest);
      str, rest := WriteConversion(buf, str, Front(conv), sp, orig, text);
      text := text + out.text;
      f := if Front(conv) == '\0' then conv else conv[1..];
    }
    assert whole == text;
    str := Put(buf, str, '\0', orig, text);
    return str - 1;
  }

  lemma PutKeeps(whole: string, text: string, more: string, rest: string)
    requires whole == text + (more + rest)
    ensures whole == text + more + rest && |text + more| <= |whole|
  {
  }

  // ---------------------------------------------------------------- splitting a format

  predicate NulFree(f: string) {
    forall i :: 0 <= i < |f| ==> f[i] != '\0'
  }

  /** Every directive of the format has its conversion character. */
  predicate Complete(f: string)
    decreases |f|
  {
    if f == "" then true
    else if f[0] != '%' then Complete(f[1..])
    else AfterSpec(f[1..]) != "" && Complete(AfterSpec(f[1..])[1..])
  }

  // Reading a part that ends before the end of `f` does not depend on what follows `f`.

  lemma {:induction false} FlagsLocal(f: string, g: string, flags: Flags)
    requires AfterFlags(f) != ""
    ensures AfterFlags(f + g) == AfterFlags(f) + g && FlagsIn(f + g, flags) == FlagsIn(f, flags)
    decreases |f|
  {
    if IsFlag(Front(f)) {
      FlagsLocal(f[1..], g, SetFlag(f[0], flags));
      assert (f + g)[1..] == f[1..] + g;
    }
  }

  lemma DigitsLocal(f: string, g: string)
    requires AfterDigits(f) != ""
    ensures AfterDigits(f + g) == AfterDigits(f) + g && Number(f + g) == Number(f)
  {
    var e := DigitsEnd(f, 0);
    assert forall j :: 0 <= j <= e ==> At(f + g, j) == At(f, j);
    DigitsEndIs(f + g, 0, e);
    assert (f + g)[e..] == f[e..] + g && (f + g)[..e] == f[..e];
  }

  lemma WidthLocal(f: string, g: string, args: seq<Arg>)
    requires AfterWidth(f) != ""
    ensures AfterWidth(f + g) == AfterWidth(f) + g
    ensures WidthOf(f + g, args) == WidthOf(f, args) && ArgsAfterWidth(f + g, args) == ArgsAfterWidth(f, args)
    ensures forall flags :: FlagsAfterWidth(f + g, args, flags) == FlagsAfterWidth(f, args, flags)
  {
    if IsDigit(Front(f)) { DigitsLocal(f, g); } else { assert (f + g)[1..] == f[1..] + g; }
  }

  lemma PrecisionLocal(f: string, g: string, args: seq<Arg>)
    requires AfterPrecision(f) != ""
    ensures AfterPrecision(f + g) == AfterPrecision(f) + g
    ensures PrecisionOf(f + g, args) == PrecisionOf(f, args)
    ensures ArgsAfterPrecision(f + g, args) == ArgsAfterPrecision(f, args)
  {
    if Front(f) == '.' {
      var f1 := f[1..];
      assert (f + g)[1..] == f1 + g;
      if IsDigit(Front(f1)) { DigitsLocal(f1, g); } else { assert (f1 + g)[1..] == f1[1..] + g; }
    }
  }

  lemma {:induction false} AfterFlagsNulFree(f: string)
    requires NulFree(f)
    ensures NulFree(AfterFlags(f))
    decreases |f|
  {
    if IsFlag(Front(f)) { AfterFlagsNulFree(f[1..]); }
  }

  lemma AfterSpecNulFree(f: string)
    requires NulFree(f)
    ensures NulFree(AfterSpec(f))
  {
    var f1 := AfterFlags(f);
    AfterFlagsNulFree(f);
    var f2 := AfterWidth(f1);
    assert NulFree(f2);
    var f3 := AfterPrecision(f2);
    assert NulFree(f3);
  }

  lemma QualifierLocal(f: string, g: string)
    requires AfterQualifier(f) != ""
    ensures AfterQualifier(f + g) == AfterQualifier(f) + g && Front(f + g) == Front(f)
  {
    assert (f + g)[1..] == f[1..] + g;
  }

  lemma SpecLocal(f: string, g: string, args: seq<Arg>)
    requires AfterSpec(f) != ""
    ensures AfterSpec(f + g) == AfterSpec(f) + g && SpecOf(f + g, args) == SpecOf(f, args)
  {
    var f1 := AfterFlags(f);
    var f2 := AfterWidth(f1);
    var f3 := AfterPrecision(f2);
    FlagsLocal(f, g, NO_FLAGS);
    WidthLocal(f1, g, args);
    PrecisionLocal(f2, g, ArgsAfterWidth(f1, args));
    QualifierLocal(f3, g);
  }

  lemma AfterDirectiveLocal(f: string, g: string)
    requires NulFree(f) && AfterSpec(f) != ""
    ensures AfterDirective(f) == AfterSpec(f)[1..] && AfterDirective(f + g) == AfterDirective(f) + g
    ensures NulFree(AfterDirective(f))
  {
    AfterSpecNulFree(f);
    SpecLocal(f, g, []);
    assert (AfterSpec(f) + g)[1..] == AfterSpec(f)[1..] + g;
  }

  lemma DirectiveLocal(f: string, g: string, args: seq<Arg>)
    requires AfterSpec(f) != ""
    ensures Directive(f + g, args) == Directive(f, args)
  {
    SpecLocal(f, g, args);
    var c, sp := Front(AfterSpec(f)), SpecOf(f, args);
    assert Front(AfterSpec(f + g)) == c && SpecOf(f + g, args) == sp;
  }

  lemma Assoc(a: string, b: string, c: string)
    ensures a + (b + c) == a + b + c
  {
  }

  ghost predicate Appends(f: string, g: string, args: seq<Arg>) {
    var first := Formatted(f, args);
    var rest := Formatted(g, first.args);
    Formatted(f + g, args) == Out(first.text + rest.text, rest.args)
  }

  // If `f` starts with `text` and goes on with `r`, then so does `f + g`, and the law for
  // `r` gives the law for `f`.
  lemma AppendsStep(f: string, g: string, args: seq<Arg>, text: string, r: string, args': seq<Arg>)
    requires Appends(r, g, args')
    requires Formatted(f, args) == Out(text + Formatted(r, args').text, Formatted(r, args').args)
    requires Formatted(f + g, args) == Out(text + Formatted(r + g, args').text, Formatted(r + g, args').args)
    ensures Appends(f, g, args)
  {
    var first := Formatted(r, args');
    Assoc(text, first.text, Formatted(g, first.args).text);
  }

  /** A format is printed as its parts are, one after the other, when it is split behind a
      complete directive. */
  lemma {:induction false} FormatAppend(f: string, g: string, args: seq<Arg>)
    requires NulFree(f) && Complete(f)
    ensures Appends(f, g, args)
    decreases |f|
  {
    if f == "" {
      assert f + g == g;
    } else {
      assert (f + g)[1..] == f[1..] + g;
      if f[0] != '%' {
        FormatAppend(f[1..], g, args);
        AppendsStep(f, g, args, [f[0]], f[1..], args);
      } else {
        DirectiveLocal(f[1..], g, args);
        AfterDirectiveLocal(f[1..], g);
        var out := Directive(f[1..], args);
        FormatAppend(AfterDirective(f[1..]), g, out.args);
        AppendsStep(f, g, args, out.text, AfterDirective(f[1..]), out.args);
      }
    }
  }

  // A percent sign ends every part of a directive.
  lemma {:induction false} FlagsPercent(f: string)
    ensures AfterFlags(f + "%") == AfterFlags(f) + "%"
    decreases |f|
  {
    if IsFlag(Front(f)) {
      FlagsPercent(f[1..]);
      assert (f + "%")[1..] == f[1..] + "%";
    }
  }

  lemma DigitsPercent(f: string)
    ensures AfterDigits(f + "%") == AfterDigits(f) + "%"
  {
    var e := DigitsEnd(f, 0);
    assert forall j :: 0 <= j < e ==> At(f + "%", j) == At(f, j);
    assert !IsDigit(At(f + "%", e));
    DigitsEndIs(f + "%", 0, e);
    assert (f + "%")[e..] == f[e..] + "%";
  }

  lemma SpecPercent(f: string)
    ensures AfterSpec(f + "%") == AfterSpec(f) + "%"
  {
    var f1 := AfterFlags(f);
    var f2 := AfterWidth(f1);
    var f3 := AfterPrecision(f2);
    FlagsPercent(f);
    WidthPercent(f1);
    PrecisionPercent(f2);
    if f3 != "" { assert (f3 + "%")[1..] == f3[1..] + "%"; }
  }

  lemma WidthPercent(f: string)
    ensures AfterWidth(f + "%") == AfterWidth(f) + "%"
  {
    DigitsPercent(f);
    if f != "" { assert (f + "%")[1..] == f[1..] + "%"; }
  }

  lemma PrecisionPercent(f: string)
    ensures AfterPrecision(f + "%") == AfterPrecision(f) + "%"
  {
    if Front(f) == '.' {
      var f1 := f[1..];
      assert (f + "%")[1..] == f1 + "%";
      WidthPercent(f1);
    }
  }

  // A format cut off inside a directive prints one character less when "%" is appended than
  // the two parts do.
  lemma {:induction false} CutOff(f: string, args: seq<Arg>)
    requires NulFree(f) && !Complete(f)
    ensures |Formatted(f + "%", args).text| == |Formatted(f, args).text|
    decreases |f|
  {
    assert (f + "%")[1..] == f[1..] + "%";
    if f[0] != '%' {
      CutOff(f[1..], args);
    } else if AfterSpec(f[1..]) == "" {
      CutOffHere(f[1..], args);
    } else {
      DirectiveLocal(f[1..], "%", args);
      AfterDirectiveLocal(f[1..], "%");
      CutOff(AfterDirective(f[1..]), Directive(f[1..], args).args);
    }
  }

  lemma CutOffHere(f: string, args: seq<Arg>)
    requires NulFree(f) && AfterSpec(f) == ""
    ensures Directive(f + "%", args).text == "%" == Directive(f, args).text
    ensures AfterDirective(f + "%") == "" == AfterDirective(f)
  {
    SpecPercent(f);
    assert ("" + "%")[1..] == "";
  }

  lemma LonePercent(args: seq<Arg>)
    ensures |Formatted("%", args).text| == 1
  {
    assert "%"[1..] == "";
    assert Directive("", args).text == "%";
    assert AfterDirective("") == "";
  }

  lemma CutOffDiffers(f: string)
    requires NulFree(f) && !Complete(f)
    ensures !Appends(f, "%", [])
  {
    CutOff(f, []);
    LonePercent(Formatted(f, []).args);
  }

  /** A format can be split at a point, for every continuation and all arguments, if and only
      if the first part ends with a complete directive. */
  lemma SplitsAnywhere(f: string)
    requires NulFree(f)
    ensures (forall g: string, args: seq<Arg> :: Appends(f, g, args)) <==> Complete(f)
  {
    if Complete(f) {
      forall g: string, args: seq<Arg>
        ensures Appends(f, g, args)
      {
        FormatAppend(f, g, args);
      }
    } else {
      CutOffDiffers(f);
    }
  }

  // ---------------------------------------------------------------- literal text

  function DoublePercents(s: string): string {
    if s == "" then ""
    else (if s[0] == '%' then "%%" else [s[0]]) + DoublePercents(s[1..])
  }

  lemma PlainStep(c: char, f: string, args: seq<Arg>)
    requires c != '%' && c != '\0'
    ensures var rest := Formatted(f, args);
            Formatted([c] + f, args) == Out([c] + rest.text, rest.args)
  {
    assert ([c] + f)[1..] == f;
  }

  lemma PercentStep(f: string, args: seq<Arg>)
    ensures var rest := Formatted(f, args);
            Formatted("%%" + f, args) == Out("%" + rest.text, rest.args)
  {
    assert ("%%" + f)[1..] == "%" + f;
    PercentDirective(f, args);
  }

  lemma PercentDirective(rest: string, args: seq<Arg>)
    ensures Directive("%" + rest, args) == Out("%", args) && AfterDirective("%" + rest) == rest
  {
    assert AfterSpec("%" + rest) == "%" + rest;
    assert ("%" + rest)[1..] == rest;
  }

  /** Any string without a NUL is printed as it stands once its percent signs are doubled. */
  lemma {:induction false} DoubledPrintsBack(s: string, args: seq<Arg>)
    requires NulFree(s)
    ensures Formatted(DoublePercents(s), args) == Out(s, args)
  {
    if s != "" {
      DoubledPrintsBack(s[1..], args);
      if s[0] == '%' {
        PercentStep(DoublePercents(s[1..]), args);
      } else {
        PlainStep(s[0], DoublePercents(s[1..]), args);
      }
      assert s == [s[0]] + s[1..];
    }
  }

  // ---------------------------------------------------------------- unsigned decimals

  /** A plain `%u` prints the 32-bit value it is given if and only if the value is below
      2^31: it fetches a signed argument and widens it to 64 bits before printing. */
  lemma UnsignedDecimal(x: Word)
    requires x < TWO32
    ensures Formatted("%u", [Num(x)]).text == DigitText(Digits(x, 10), false) <==> x < TWO31
  {
    var n := AsInt32(x);
    UnsignedDirective(x);
    PlainFlags(n, -1, 10, -1, NO_FLAGS);
    PlainValue(n % TWO64, 10);
    PlainValue(x, 10);
    Widened(x);
  }

  lemma Widened(x: Word)
    requires x < TWO32
    ensures AsInt32(x) % TWO64 == if x < TWO31 then x else x + TWO64 - TWO32
  {
  }

  lemma UnsignedDirective(x: Word)
    ensures Formatted("%u", [Num(x)]).text == Render(AsInt32(x), -1, 10, -1, NO_FLAGS)
  {
    assert "%u"[1..] == "u" && "u"[1..] == "";
    assert AfterSpec("u") == "u";
    assert SpecOf("u", [Num(x)]) == Spec(NO_FLAGS, -1, -1, false, [Num(x)]);
    var out := Directive("u", [Num(x)]);
    assert Formatted("", out.args).text == "";
    assert out.text + "" == out.text;
  }
}
