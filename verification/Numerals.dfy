/** What a rendered number looks like (core/print.c:36-203), said without the functions that
    render it. */
module Numerals {
  import opened Bits
  import opened Itoa

  // ---------------------------------------------------------------- numerals

  /** A digit of the base, letters in the given case. */
  predicate DigitIn(c: char, base: nat, lowercase: bool) {
    || ('0' <= c <= '9' && c as int - '0' as int < base)
    || (lowercase && 'a' <= c <= 'z' && c as int - 'a' as int + 10 < base)
    || (!lowercase && 'A' <= c <= 'Z' && c as int - 'A' as int + 10 < base)
  }

  predicate AllDigits(text: string, base: nat, lowercase: bool) {
    forall i :: 0 <= i < |text| ==> DigitIn(text[i], base, lowercase)
  }

  /** The digits of a number, the first of which is 0 for the number 0 alone. */
  predicate IsNumeral(text: string, value: nat, base: nat, lowercase: bool) {
    && text != "" && AllDigits(text, base, lowercase) && (|text| > 1 ==> text[0] != '0')
    && Read(text, base) == value
  }

  lemma DigitValue(c: char, base: nat, lowercase: bool)
    requires DigitIn(c, base, lowercase)
    ensures CharValue(c) < base && (CharValue(c) == 0 <==> c == '0')
  {
  }

  lemma SameDigit(c: char, d: char, base: nat, lowercase: bool)
    requires DigitIn(c, base, lowercase) && DigitIn(d, base, lowercase) && CharValue(c) == CharValue(d)
    ensures c == d
  {
  }

  lemma {:induction false} PositiveNumeral(text: string, base: nat, lowercase: bool)
    requires text != "" && AllDigits(text, base, lowercase) && text[0] != '0' && base > 0
    ensures Read(text, base) > 0
  {
    var last := |text| - 1;
    if last == 0 {
      DigitValue(text[0], base, lowercase);
    } else {
      PositiveNumeral(text[..last], base, lowercase);
      MulGap(base, 0, Read(text[..last], base));
    }
  }

  // A numeral has one digit exactly when its value is below the base; otherwise the digits in
  // front of the last one are the numeral of the quotient.
  lemma NumeralSteps(text: string, value: nat, base: nat, lowercase: bool)
    requires IsNumeral(text, value, base, lowercase) && base >= 2
    ensures |text| == 1 <==> value < base
    ensures CharValue(text[|text| - 1]) == value % base
    ensures |text| > 1 ==> IsNumeral(text[..|text| - 1], value / base, base, lowercase)
  {
    var last := |text| - 1;
    var front := Read(text[..last], base);
    DigitValue(text[last], base, lowercase);
    DivUnique(value, base, front, CharValue(text[last]));
    if last > 0 {
      PositiveNumeral(text[..last], base, lowercase);
      MulGap(base, 0, front);
    }
  }

  /** A number has one numeral in each base. */
  lemma {:induction false} NumeralUnique(a: string, b: string, value: nat, base: nat, lowercase: bool)
    requires IsNumeral(a, value, base, lowercase) && IsNumeral(b, value, base, lowercase) && base >= 2
    ensures a == b
    decreases |a|
  {
    NumeralSteps(a, value, base, lowercase);
    NumeralSteps(b, value, base, lowercase);
    var m, n := |a| - 1, |b| - 1;
    SameDigit(a[m], b[n], base, lowercase);
    if m > 0 { NumeralUnique(a[..m], b[..n], value / base, base, lowercase); }
    assert a == a[..m] + [a[m]] && b == b[..n] + [b[n]];
  }

  lemma {:induction false} TopDigit(m: nat, base: nat)
    requires base >= 2 && m > 0
    ensures Digits(m, base)[|Digits(m, base)| - 1] != 0
    decreases m
  {
    if m >= base {
      DivSmaller(m, base);
      assert m / base > 0;
      TopDigit(m / base, base);
    }
  }

  lemma {:induction false} DigitTextAt(ds: seq<nat>, base: nat, lowercase: bool)
    requires base <= 36 && forall i :: 0 <= i < |ds| ==> ds[i] < base
    ensures AllDigits(DigitText(ds, lowercase), base, lowercase)
    ensures ds != [] ==> DigitText(ds, lowercase)[0] == DigitChar(ds[|ds| - 1], lowercase)
  {
    if ds != [] { DigitTextAt(ds[1..], base, lowercase); }
  }

  lemma DigitsLook(m: nat, base: nat, lowercase: bool)
    requires BaseInRange(base)
    ensures var text := DigitText(Digits(m, base), lowercase);
            text != "" && AllDigits(text, base, lowercase) && (|text| > 1 ==> text[0] != '0')
  {
    DigitTextAt(Digits(m, base), base, lowercase);
    if m > 0 { TopDigit(m, base); }
  }

  lemma DigitsRead(m: nat, base: nat, lowercase: bool)
    requires BaseInRange(base)
    ensures Read(DigitText(Digits(m, base), lowercase), base) == m
  {
    var ds := Digits(m, base);
    EvalLowDigits(m, base, |ds|);
    assert ds[..|ds|] == ds;
    SmallModulo(m, Pow(base, |ds|));
    ReadDigitText(ds, base, lowercase);
  }

  /** The digits that the division loop writes are the numeral. */
  lemma DigitsNumeral(m: nat, base: nat, lowercase: bool)
    requires BaseInRange(base)
    ensures IsNumeral(DigitText(Digits(m, base), lowercase), m, base, lowercase)
  {
    DigitsLook(m, base, lowercase);
    DigitsRead(m, base, lowercase);
  }

  lemma {:induction false} LowDigitText(ds: seq<nat>, k: nat, lowercase: bool)
    requires k <= |ds| && forall i :: 0 <= i < |ds| ==> ds[i] < 36
    ensures DigitText(ds[..k], lowercase) == DigitText(ds, lowercase)[|ds| - k..]
  {
    if k > 0 {
      LowDigitText(ds[1..], k - 1, lowercase);
      assert ds[..k][1..] == ds[1..][..k - 1];
    }
  }

  // ---------------------------------------------------------------- the parts of a rendering

  datatype Parts = Parts(lead: nat, sign: string, prefix: string, zeros: nat, digits: string, trail: nat) {
    function Text(): string {
      Repeat(' ', lead) + sign + prefix + Repeat('0', zeros) + digits + Repeat(' ', trail)
    }

    function Front(): nat { |sign| + |prefix| }
  }

  predicate SignIs(sign: string, negative: bool, flags: Flags) {
    && (sign == "-" <==> negative)
    && (sign == "+" <==> !negative && flags.plus)
    && (sign == " " <==> !negative && !flags.plus && flags.space)
    && (sign == "" <==> !negative && !flags.plus && !flags.space)
  }

  predicate PrefixIs(prefix: string, base: nat, flags: Flags) {
    && (prefix == "0x" <==> flags.special && base == 16 && flags.lowercase)
    && (prefix == "0X" <==> flags.special && base == 16 && !flags.lowercase)
    && (prefix == "0" <==> flags.special && base == 8)
    && (prefix == "" <==> !(flags.special && (base == 8 || base == 16)))
  }

  /** How a numeral fills its field.  When it does not fit behind sign and prefix its last digits
      alone are shown, less those that the precision would add.  Otherwise it is shown in full,
      the precision adds zeros in front of the digits, and what is missing to the field is blanks
      behind the number (left-justified), zeros in front of the digits, or blanks in front of
      the number. */
  predicate Fills(t: Parts, numeral: string, size: int, precision: int, flags: Flags) {
    var wanted := Max(precision, |numeral|);
    if t.Front() <= size < t.Front() + wanted then
      && t.lead == t.zeros == t.trail == 0
      && |t.digits| == Max(0, size - t.Front() - (wanted - |numeral|))
      && t.digits == numeral[|numeral| - |t.digits|..]
    else
      && t.digits == numeral
      && |t.Text()| == Max(size, t.Front() + wanted)
      && (t.lead > 0 ==> !flags.left && !flags.zeropad)
      && (t.trail > 0 ==> flags.left)
      && t.zeros >= wanted - |numeral|
      && (t.zeros > wanted - |numeral| ==> flags.zeropad && !flags.left)
  }

  predicate Shows(t: Parts, numeral: string, value: nat, negative: bool, size: int, base: nat, precision: int,
                  flags: Flags) {
    && IsNumeral(numeral, value, base, flags.lowercase)
    && SignIs(t.sign, negative, flags) && PrefixIs(t.prefix, base, flags)
    && Fills(t, numeral, size, precision, flags)
  }

  /** The text shows `value`, with a minus sign when `negative`. */
  ghost predicate IsRendering(text: string, value: nat, negative: bool, size: int, base: nat, precision: int,
                              flags: Flags) {
    exists t: Parts, numeral: string ::
      Shows(t, numeral, value, negative, size, base, precision, flags) && t.Text() == text
  }

  // ---------------------------------------------------------------- the law

  /** The number that the digits stand for: `-num` behind a minus sign, otherwise `num` as a 64-bit
      pattern. */
  predicate IsValue(value: nat, num: int, flags: Flags) {
    if flags.signed && num < 0 then value == -num
    else if num >= 0 then value == num
    else value == num + 0x1_0000_0000_0000_0000
  }

  /** Every rendering, of every number in every base and field, shows that number. */
  lemma RenderShows(num: int, size: int, base: nat, precision: int, flags: Flags, value: nat)
    requires BaseInRange(base) && -TWO63 <= num < TWO63 && IsValue(value, num, flags)
    ensures IsRendering(Render(num, size, base, precision, flags), value, flags.signed && num < 0, size, base,
                        precision, flags)
  {
    var ds := Digits(value, base);
    assert Magnitude(num, flags) == value;
    DigitsNumeral(value, base, flags.lowercase);
    SignIsText(num, flags);
    PrefixIsText(base, flags);
    var t := RenderParts(num, size, base, precision, flags, ds);
    assert Shows(t, DigitText(ds, flags.lowercase), value, flags.signed && num < 0, size, base, precision, flags);
  }

  lemma RenderParts(num: int, size: int, base: nat, precision: int, flags: Flags, ds: seq<nat>) returns (t: Parts)
    requires BaseInRange(base) && -TWO63 <= num < TWO63 && ds == Digits(Magnitude(num, flags), base)
    ensures t.Text() == Render(num, size, base, precision, flags)
    ensures t.sign == SignText(num, flags) && t.prefix == PrefixText(base, flags)
    ensures Fills(t, DigitText(ds, flags.lowercase), size, precision, flags)
  {
    if 0 <= Room(num, size, base, flags) < Max(precision, |ds|) {
      t := CutParts(num, size, base, precision, flags, ds);
    } else {
      t := WholeParts(num, size, base, precision, flags, ds);
    }
  }

  lemma PrefixIsText(base: nat, flags: Flags)
    ensures PrefixIs(PrefixText(base, flags), base, flags)
  {
  }

  lemma SignIsText(num: int, flags: Flags)
    ensures SignIs(SignText(num, flags), flags.signed && num < 0, flags)
  {
  }

  // Blanks, zeros and blanks of a number that fits in its field.
  function Pads(wanted: bool, n: int): nat {
    if wanted then Max(0, n) else 0
  }

  lemma RepeatPads(c: char, wanted: bool, n: int)
    ensures Repeat(c, if wanted then n else 0) == Repeat(c, Pads(wanted, n))
  {
  }

  lemma RepeatBoth(c: char, m: nat, n: nat)
    ensures Repeat(c, m) + Repeat(c, n) == Repeat(c, m + n)
  {
  }

  lemma CutParts(num: int, size: int, base: nat, precision: int, flags: Flags, ds: seq<nat>) returns (t: Parts)
    requires BaseInRange(base) && -TWO63 <= num < TWO63 && ds == Digits(Magnitude(num, flags), base)
    requires 0 <= Room(num, size, base, flags) < Max(precision, |ds|)
    ensures t.Text() == Render(num, size, base, precision, flags)
    ensures t.sign == SignText(num, flags) && t.prefix == PrefixText(base, flags)
    ensures Fills(t, DigitText(ds, flags.lowercase), size, precision, flags)
  {
    var room, wanted := Room(num, size, base, flags), Max(precision, |ds|);
    var numeral := DigitText(ds, flags.lowercase);
    var k := Itoa.Shown(|ds|, room, wanted);
    LowDigitText(ds, k, flags.lowercase);
    t := Parts(0, SignText(num, flags), PrefixText(base, flags), 0, numeral[|ds| - k..], 0);
    assert Head(num, size, base, precision, flags) == Repeat(' ', 0) + t.sign + t.prefix;
    assert Body(num, size, base, precision, flags) == t.digits;
    assert Trail(num, size, base, precision, flags) == Repeat(' ', 0);
    EmptyZeros(Repeat(' ', 0) + t.sign + t.prefix, t.digits);
  }

  lemma EmptyZeros(front: string, digits: string)
    ensures front + Repeat('0', 0) + digits == front + digits
  {
  }

  lemma WholeFills(t: Parts, gap: int, numeral: string, size: int, precision: int, flags: Flags)
    requires gap == size - t.Front() - Max(precision, |numeral|) && !(-Max(precision, |numeral|) <= gap < 0)
    requires t.lead == Pads(!(flags.zeropad || flags.left), gap) && t.trail == Pads(flags.left, gap)
    requires t.zeros == Pads(flags.zeropad && !flags.left, gap) + Max(precision, |numeral|) - |numeral|
    requires t.digits == numeral
    ensures Fills(t, numeral, size, precision, flags)
  {
  }

  // The three parts of a rendering that fits in its field.
  lemma WholeText(num: int, size: int, base: nat, precision: int, flags: Flags, ds: seq<nat>, gap: int)
    requires BaseInRange(base) && -TWO63 <= num < TWO63 && ds == Digits(Magnitude(num, flags), base)
    requires !(0 <= Room(num, size, base, flags) < Max(precision, |ds|))
    requires gap == Room(num, size, base, flags) - Max(precision, |ds|)
    ensures Head(num, size, base, precision, flags)
         == Repeat(' ', Pads(!(flags.zeropad || flags.left), gap)) + SignText(num, flags) + PrefixText(base, flags)
    ensures Body(num, size, base, precision, flags)
         == Repeat('0', Pads(flags.zeropad && !flags.left, gap) + Max(precision, |ds|) - |ds|)
            + DigitText(ds, flags.lowercase)
    ensures Trail(num, size, base, precision, flags) == Repeat(' ', Pads(flags.left, gap))
  {
    RepeatPads(' ', !(flags.zeropad || flags.left), gap);
    RepeatPads('0', flags.zeropad && !flags.left, gap);
    RepeatBoth('0', Pads(flags.zeropad && !flags.left, gap), Max(precision, |ds|) - |ds|);
    RepeatPads(' ', flags.left, gap);
  }

  lemma WholeParts(num: int, size: int, base: nat, precision: int, flags: Flags, ds: seq<nat>) returns (t: Parts)
    requires BaseInRange(base) && -TWO63 <= num < TWO63 && ds == Digits(Magnitude(num, flags), base)
    requires !(0 <= Room(num, size, base, flags) < Max(precision, |ds|))
    ensures t.Text() == Render(num, size, base, precision, flags)
    ensures t.sign == SignText(num, flags) && t.prefix == PrefixText(base, flags)
    ensures Fills(t, DigitText(ds, flags.lowercase), size, precision, flags)
  {
    var wanted := Max(precision, |ds|);
    var gap := Room(num, size, base, flags) - wanted;
    var numeral := DigitText(ds, flags.lowercase);
    var lead, pads := Pads(!(flags.zeropad || flags.left), gap), Pads(flags.zeropad && !flags.left, gap);
    t := Parts(lead, SignText(num, flags), PrefixText(base, flags), pads + wanted - |ds|, numeral,
               Pads(flags.left, gap));
    WholeFills(t, gap, numeral, size, precision, flags);
    WholeText(num, size, base, precision, flags, ds, gap);
    PartsText(t, Head(num, size, base, precision, flags), Body(num, size, base, precision, flags),
              Trail(num, size, base, precision, flags));
  }

  lemma PartsText(t: Parts, head: string, body: string, trail: string)
    requires head == Repeat(' ', t.lead) + t.sign + t.prefix && body == Repeat('0', t.zeros) + t.digits
    requires trail == Repeat(' ', t.trail)
    ensures t.Text() == head + body + trail
  {
    Reassociate(head, Repeat('0', t.zeros), t.digits);
  }

  lemma Reassociate(front: string, zeros: string, digits: string)
    ensures front + (zeros + digits) == front + zeros + digits
  {
  }

  lemma FillsUnique(t: Parts, u: Parts, numeral: string, size: int, precision: int, flags: Flags)
    requires Fills(t, numeral, size, precision, flags) && Fills(u, numeral, size, precision, flags)
    requires t.sign == u.sign && t.prefix == u.prefix
    ensures t == u
  {
  }

  /** Value, sign and field determine the text. */
  lemma RenderingUnique(text: string, other: string, value: nat, negative: bool, size: int, base: nat,
                        precision: int, flags: Flags)
    requires base >= 2
    requires IsRendering(text, value, negative, size, base, precision, flags)
    requires IsRendering(other, value, negative, size, base, precision, flags)
    ensures text == other
  {
    var t, numeral :| Shows(t, numeral, value, negative, size, base, precision, flags) && t.Text() == text;
    var u, numeral' :| Shows(u, numeral', value, negative, size, base, precision, flags) && u.Text() == other;
    NumeralUnique(numeral, numeral', value, base, flags.lowercase);
    FillsUnique(t, u, numeral, size, precision, flags);
  }

  /** A text is what `itoa_k` writes if and only if it shows the number in that field. */
  lemma RenderExactly(text: string, num: int, size: int, base: nat, precision: int, flags: Flags, value: nat)
    requires BaseInRange(base) && -TWO63 <= num < TWO63 && IsValue(value, num, flags)
    ensures text == Render(num, size, base, precision, flags)
       <==> IsRendering(text, value, flags.signed && num < 0, size, base, precision, flags)
  {
    var rendered, negative := Render(num, size, base, precision, flags), flags.signed && num < 0;
    RenderShows(num, size, base, precision, flags, value);
    if IsRendering(text, value, negative, size, base, precision, flags) {
      RenderingUnique(text, rendered, value, negative, size, base, precision, flags);
    }
  }

  // ---------------------------------------------------------------- zero-padded numbers

  lemma {:induction false} ReadAppend(a: string, b: string, base: nat)
    ensures Read(a + b, base) == Read(a, base) * Pow(base, |b|) + Read(b, base)
    decreases |b|
  {
    if b == "" {
      assert a + b == a;
    } else {
      var last := |b| - 1;
      ReadAppend(a, b[..last], base);
      assert (a + b)[..|a + b| - 1] == a + b[..last];
      Distribute(base, Read(a, base), Pow(base, last), Read(b[..last], base));
    }
  }

  lemma Distribute(base: nat, a: nat, p: nat, b: nat)
    ensures base * (a * p + b) == a * (base * p) + base * b
  {
  }

  lemma {:induction false} ReadBelow(text: string, base: nat, lowercase: bool)
    requires AllDigits(text, base, lowercase) && base > 0
    ensures Read(text, base) < Pow(base, |text|)
    decreases |text|
  {
    if text != "" {
      var last := |text| - 1;
      ReadBelow(text[..last], base, lowercase);
      DigitValue(text[last], base, lowercase);
      MulGap(base, Read(text[..last], base), Pow(base, last));
    }
  }

  lemma Remainder(v: nat, a: nat, p: nat, r: nat)
    requires v == a * p + r && r < p
    ensures v % p == r
  {
    DivUnique(v, p, a, r);
  }

  lemma AllDigitsBoth(a: string, b: string, base: nat, lowercase: bool)
    ensures AllDigits(a + b, base, lowercase) <==> AllDigits(a, base, lowercase) && AllDigits(b, base, lowercase)
  {
    assert forall i :: 0 <= i < |a| ==> a[i] == (a + b)[i];
    assert forall i :: 0 <= i < |b| ==> b[i] == (a + b)[|a| + i];
  }

  /** The last digits of a number are its remainder. */
  lemma ReadLast(a: string, b: string, base: nat, lowercase: bool)
    requires AllDigits(b, base, lowercase) && base > 0
    ensures Pow(base, |b|) > 0 && Read(b, base) == Read(a + b, base) % Pow(base, |b|)
  {
    ReadAppend(a, b, base);
    ReadBelow(b, base, lowercase);
    Remainder(Read(a + b, base), Read(a, base), Pow(base, |b|), Read(b, base));
  }

  // The zeros and digits of a zero-padded number.
  lemma ZeroBody(t: Parts, numeral: string, value: nat, size: int, base: nat, precision: int, flags: Flags)
    returns (body: string)
    requires Fills(t, numeral, size, precision, flags) && IsNumeral(numeral, value, base, flags.lowercase)
    requires flags.zeropad && !flags.left && precision <= 1 && base >= 2
    ensures body == Repeat('0', t.zeros) + t.digits && AllDigits(body, base, flags.lowercase)
    ensures t.Front() <= size ==>
              |body| == size - t.Front() && Pow(base, |body|) > 0 && Read(body, base) == value % Pow(base, |body|)
  {
    body := Repeat('0', t.zeros) + t.digits;
    var zeros, cut := Repeat('0', t.zeros), |numeral| - |t.digits|;
    AllDigitsBoth(numeral[..cut], t.digits, base, flags.lowercase);
    AllDigitsBoth(zeros, t.digits, base, flags.lowercase);
    assert numeral == numeral[..cut] + t.digits;
    if t.digits == numeral {
      ReadLeadingZeros(t.zeros, numeral, base);
      ReadBelow(body, base, flags.lowercase);
      SmallModulo(value, Pow(base, |body|));
    } else {
      assert body == t.digits;
      ReadLast(numeral[..cut], t.digits, base, flags.lowercase);
    }
  }

  lemma NoBlanks(t: Parts)
    requires t.lead == t.trail == 0
    ensures t.Text() == t.sign + t.prefix + (Repeat('0', t.zeros) + t.digits)
  {
  }

  /** A zero-padded number is its sign, its prefix, and as many digits as fill the field: the
      number modulo that power of the base. */
  lemma ZeroPadded(text: string, value: nat, negative: bool, size: int, base: nat, precision: int, flags: Flags)
    returns (t: Parts, body: string)
    requires IsRendering(text, value, negative, size, base, precision, flags) && base >= 2
    requires flags.zeropad && !flags.left && precision <= 1
    ensures SignIs(t.sign, negative, flags) && PrefixIs(t.prefix, base, flags)
    ensures text == t.sign + t.prefix + body && AllDigits(body, base, flags.lowercase)
    ensures t.Front() <= size ==>
              |body| == size - t.Front() && Pow(base, |body|) > 0 && Read(body, base) == value % Pow(base, |body|)
  {
    var t', numeral :| Shows(t', numeral, value, negative, size, base, precision, flags) && t'.Text() == text;
    t := t';
    body := ZeroBody(t, numeral, value, size, base, precision, flags);
    NoBlanks(t);
  }
}
