/** Number rendering: `itoa_k` and `atoi_k` (core/print.c:27-203). */
module Itoa {
  import opened Bits
  import opened Options

  const TWO63: int := 0x8000_0000_0000_0000
  const TWO31: int := 0x8000_0000

  datatype Flags =
    Flags(zeropad: bool, signed: bool, plus: bool, space: bool, left: bool, special: bool, lowercase: bool)

  const NO_FLAGS := Flags(false, false, false, false, false, false, false)

  // ---------------------------------------------------------------- pieces of a rendering

  function Repeat(c: char, n: int): (s: string)
    ensures |s| == if n > 0 then n else 0
    ensures forall i :: 0 <= i < |s| ==> s[i] == c
  {
    seq(if n > 0 then n else 0, _ => c)
  }

  const UPPER: string := "0123456789ABCDEFGHIJKLMNOPQRSTUVWXYZ"
  const LOWER: string := "0123456789abcdefghijklmnopqrstuvwxyz"

  /** The character of a digit: an entry of one of the two tables (see `DigitCharIsEntry`). */
  function DigitChar(d: nat, lowercase: bool): char
    requires d < 36
  {
    if d < 10 then ('0' as int + d) as char
    else if lowercase then ('a' as int + d - 10) as char
    else ('A' as int + d - 10) as char
  }

  lemma DigitCharIsEntry(d: nat)
    requires d < 36
    ensures DigitChar(d, true) == LOWER[d] && DigitChar(d, false) == UPPER[d]
  {
  }

  /** Least significant digit first; a zero has one digit. */
  function Digits(m: nat, base: nat): (ds: seq<nat>)
    requires base >= 2
    ensures |ds| >= 1 && forall i :: 0 <= i < |ds| ==> ds[i] < base
    decreases m
  {
    if m < base then [m] else
      DivSmaller(m, base);
      [m % base] + Digits(m / base, base)
  }

  lemma DivSmaller(m: nat, base: nat)
    requires base >= 2 && m > 0
    ensures m / base < m
  {
  }

  /** The number whose digits are printed: `num` is negated when it is signed and negative,
      and otherwise read as unsigned. */
  function Magnitude(num: int, flags: Flags): nat
    requires -TWO63 <= num < TWO63
  {
    if flags.signed && num < 0 then -num else num % TWO64
  }

  function SignText(num: int, flags: Flags): (s: string)
    ensures |s| <= 1
  {
    if flags.signed && num < 0 then "-"
    else if flags.plus then "+"
    else if flags.space then " "
    else ""
  }

  function PrefixText(base: nat, flags: Flags): (s: string)
    ensures |s| <= 2
  {
    if !flags.special then ""
    else if base == 16 then ['0', DigitChar(33, flags.lowercase)]
    else if base == 8 then "0"
    else ""
  }

  /** Most significant digit first. */
  function DigitText(ds: seq<nat>, lowercase: bool): (s: string)
    requires forall i :: 0 <= i < |ds| ==> ds[i] < 36
    ensures |s| == |ds|
  {
    if ds == [] then "" else DigitText(ds[1..], lowercase) + [DigitChar(ds[0], lowercase)]
  }

  function Max(a: int, b: int): int { if a > b then a else b }

  // ---------------------------------------------------------------- the rendering

  /** The room left for digits by sign and prefix. */
  function Room(num: int, size: int, base: nat, flags: Flags): int {
    size - |SignText(num, flags)| - |PrefixText(base, flags)|
  }

  /** How many digits of `n` survive in a field with `room` for `wanted` characters. */
  function Shown(n: nat, room: int, wanted: int): (k: nat)
    ensures k <= n
  {
    if 0 <= room < wanted then Max(0, n + room - wanted) else n
  }

  predicate BaseInRange(base: int) { 2 <= base <= 36 }

  /** The digits `ds` with the zeros in front of them. */
  function BodyOf(ds: seq<nat>, room: int, precision: int, flags: Flags): string
    requires forall i :: 0 <= i < |ds| ==> ds[i] < 36
  {
    var wanted := Max(precision, |ds|);
    if 0 <= room < wanted then
      DigitText(ds[..Shown(|ds|, room, wanted)], flags.lowercase)
    else
      Repeat('0', if flags.zeropad && !flags.left then room - wanted else 0)
      + Repeat('0', wanted - |ds|) + DigitText(ds, flags.lowercase)
  }

  function Body(num: int, size: int, base: nat, precision: int, flags: Flags): string
    requires BaseInRange(base) && -TWO63 <= num < TWO63
  {
    BodyOf(Digits(Magnitude(num, flags), base), Room(num, size, base, flags), precision, flags)
  }

  /** What stands in front of the digits. */
  function Head(num: int, size: int, base: nat, precision: int, flags: Flags): string
    requires BaseInRange(base) && -TWO63 <= num < TWO63
  {
    var wanted := Max(precision, |Digits(Magnitude(num, flags), base)|);
    Repeat(' ', if flags.zeropad || flags.left then 0 else Room(num, size, base, flags) - wanted)
    + SignText(num, flags) + PrefixText(base, flags)
  }

  /** The blanks behind a left-justified number. */
  function Trail(num: int, size: int, base: nat, precision: int, flags: Flags): string
    requires BaseInRange(base) && -TWO63 <= num < TWO63
  {
    var wanted := Max(precision, |Digits(Magnitude(num, flags), base)|);
    Repeat(' ', if flags.left then Room(num, size, base, flags) - wanted else 0)
  }

  function Render(num: int, size: int, base: nat, precision: int, flags: Flags): string
    requires BaseInRange(base) && -TWO63 <= num < TWO63
  {
    Head(num, size, base, precision, flags) + Body(num, size, base, precision, flags)
    + Trail(num, size, base, precision, flags)
  }

  // ---------------------------------------------------------------- the output buffer

  /** The buffer held `orig`, and `text` has been written over its beginning. */
  ghost predicate Wrote(buf: array<char>, orig: seq<char>, text: string)
    reads buf
  {
    && |text| <= buf.Length == |orig|
    && buf[..] == text + orig[|text|..]
  }

  /** `*str = c; ++str` */
  method Put(buf: array<char>, str: nat, c: char, ghost orig: seq<char>, ghost text: string) returns (str': nat)
    requires Wrote(buf, orig, text) && str == |text| < buf.Length
    modifies buf
    ensures str' == str + 1 && Wrote(buf, orig, text + [c])
  {
    buf[str] := c;
    str' := str + 1;
    assert buf[..] == (text + orig[|text|..])[str := c];
  }

  lemma RepeatSnoc(c: char, n: nat)
    ensures Repeat(c, n + 1) == Repeat(c, n) + [c]
  {
  }

  /** `while (offset-- > 0) *str++ = c`: the counter ends below zero. */
  method Pad(buf: array<char>, str: nat, c: char, offset: int, ghost orig: seq<char>, ghost text: string)
    returns (str': nat, offset': int)
    requires Wrote(buf, orig, text) && str == |text| && str + Max(0, offset) <= buf.Length
    modifies buf
    ensures str' == str + Max(0, offset) && offset' < 0 && Wrote(buf, orig, text + Repeat(c, offset))
  {
    str', offset' := str, offset;
    ghost var pads := "";
    assert text + pads == text;
    while offset' > 0
      invariant offset' <= offset && (offset >= 0 ==> offset' >= 0) && (offset < 0 ==> offset' == offset)
      invariant pads == Repeat(c, offset - offset')
      invariant str' == |text + pads| && Wrote(buf, orig, text + pads)
    {
      RepeatSnoc(c, offset - offset');
      str' := Put(buf, str', c, orig, text + pads);
      assert text + pads + [c] == text + (pads + [c]);
      pads := pads + [c];
      offset' := offset' - 1;
    }
    offset' := offset' - 1;
  }

  /** `while (i-- > 0) *str++ = tmp[i]` */
  method PutDigits(buf: array<char>, str: nat, tmp: seq<nat>, i: int, lowercase: bool, ghost orig: seq<char>,
                   ghost text: string)
    returns (str': nat)
    requires i <= |tmp| && forall k :: 0 <= k < |tmp| ==> tmp[k] < 36
    requires Wrote(buf, orig, text) && str == |text| && str + Max(0, i) <= buf.Length
    modifies buf
    ensures str' == str + Max(0, i) && Wrote(buf, orig, text + DigitText(tmp[..Max(0, i)], lowercase))
  {
    str' := str;
    var j := i;
    ghost var shown, out := tmp[..Max(0, i)], "";
    assert text + out == text;
    while j > 0
      invariant j <= i && (i >= 0 ==> j >= 0) && (i < 0 ==> j == i)
      invariant out == DigitText(shown[Max(0, j)..], lowercase)
      invariant str' == |text + out| && Wrote(buf, orig, text + out)
    {
      j := j - 1;
      assert shown[j..][1..] == shown[j + 1..];
      str' := Put(buf, str', DigitChar(tmp[j], lowercase), orig, text + out);
      assert text + out + [DigitChar(tmp[j], lowercase)] == text + (out + [DigitChar(tmp[j], lowercase)]);
      out := out + [DigitChar(tmp[j], lowercase)];
    }
    assert Max(0, j) == 0;
    assert shown[0..] == shown;
  }

  // ---------------------------------------------------------------- itoa_k

  /** The range test of core/print.c:55: the sign bit of two unsigned differences. */
  predicate BaseTest(base: int) {
    Or((base - 2) % TWO32, (36 - base) % TWO32) < TWO31
  }

  lemma TwoTo31()
    ensures Pow2(31) == TWO31
  {
    assert Pow2(8) == 256;
    PowSum(8, 8);
    PowSum(16, 15);
    assert Pow2(16) == 2 * Pow2(15);
  }

  lemma BaseDifferences(base: int)
    requires -TWO31 <= base < TWO31
    ensures (base - 2) % TWO32 == if base >= 2 then base - 2 else base - 2 + TWO32
    ensures (36 - base) % TWO32 == if base <= 36 then 36 - base else 36 - base + TWO32
  {
  }

  lemma BaseTestExact(base: int)
    requires -TWO31 <= base < TWO31
    ensures BaseTest(base) <==> BaseInRange(base)
  {
    TwoTo31();
    OrBelow((base - 2) % TWO32, (36 - base) % TWO32, 31);
    BaseDifferences(base);
  }

  /** `str` is a position of `buf`; `text` is what precedes it. */
  method ItoaK(buf: array<char>, str: nat, num: int, size: int, base: int, precision: int, type_: Flags,
               ghost orig: seq<char>, ghost text: string)
    returns (end: Option<nat>)
    requires -TWO63 <= num < TWO63 && -TWO31 <= base < TWO31
    requires Wrote(buf, orig, text) && str == |text|
    requires BaseInRange(base) ==> str + |Render(num, size, base, precision, type_)| <= buf.Length
    modifies buf
    ensures !BaseInRange(base) ==> end == None && Wrote(buf, orig, text)
    ensures BaseInRange(base) ==>
              end == Some(str + |Render(num, size, base, precision, type_)|)
              && Wrote(buf, orig, text + Render(num, size, base, precision, type_))
  {
    BaseTestExact(base);
    if !BaseTest(base) { return None; }
    var flags := type_;
    if flags.left { flags := flags.(zeropad := false); }
    var sign := SignText(num, flags);
    var ds, offset, i, tmpLen := Measure(num, size, base, precision, flags, sign);
    PiecesMakeRender(num, size, base, precision, type_, flags, ds, offset, i, tmpLen);
    var p := WriteNumber(buf, str, sign, base, flags, ds, offset, i, tmpLen, orig, text);
    return Some(p);
  }

  /** The writing half of `itoa_k` (core/print.c:141-200). */
  method WriteNumber(buf: array<char>, str: nat, sign: string, base: nat, flags: Flags, ds: seq<nat>,
                     offset: int, i: int, tmpLen: int, ghost orig: seq<char>, ghost text: string)
    returns (p: nat)
    requires |sign| <= 1 && i <= |ds| && forall k :: 0 <= k < |ds| ==> ds[k] < 36
    requires str + |Pieces(sign, base, flags, ds, offset, i, tmpLen)| <= buf.Length
    requires Wrote(buf, orig, text) && str == |text|
    modifies buf
    ensures p == str + |Pieces(sign, base, flags, ds, offset, i, tmpLen)|
    ensures Wrote(buf, orig, text + Pieces(sign, base, flags, ds, offset, i, tmpLen))
  {
    ghost var head, body := HeadPieces(sign, base, flags, offset), BodyPieces(flags, ds, offset, i, tmpLen);
    ghost var trail := Repeat(' ', if flags.left then offset else 0);
    assert Pieces(sign, base, flags, ds, offset, i, tmpLen) == head + body + trail;
    var left;
    p, left := WriteHead(buf, str, sign, base, flags, offset, orig, text);
    p := WriteRest(buf, p, flags, ds, left, i, tmpLen, orig, text + head);
    SameRest(flags, ds, offset, left, i, tmpLen);
    Regroup(text, head, body, trail);
  }

  // Once the blanks are written the counter no longer matters.
  lemma SameRest(flags: Flags, ds: seq<nat>, offset: int, left: int, i: int, tmpLen: int)
    requires i <= |ds| && forall k :: 0 <= k < |ds| ==> ds[k] < 36
    requires flags.zeropad || flags.left ==> left == offset
    ensures BodyPieces(flags, ds, left, i, tmpLen) == BodyPieces(flags, ds, offset, i, tmpLen)
  {
  }

  lemma Regroup(a: string, b: string, c: string, d: string)
    ensures a + b + c + d == a + (b + c + d)
  {
  }

  /** The counters of core/print.c:58-138. */
  method Measure(num: int, size: int, base: nat, precision: int, flags: Flags, sign: string)
    returns (ds: seq<nat>, offset: int, i: int, tmpLen: int)
    requires BaseInRange(base) && -TWO63 <= num < TWO63 && sign == SignText(num, flags)
    ensures ds == Digits(Magnitude(num, flags), base)
    ensures Measured(|ds|, Room(num, size, base, flags), precision, offset, i, tmpLen)
  {
    offset := size;
    var magnitude := if flags.signed && num < 0 then -num else num % TWO64;
    if sign != "" { offset := offset - 1; }
    if flags.special {
      if base == 16 { offset := offset - 2; } else if base == 8 { offset := offset - 1; }
    }
    ds := WriteDigits(magnitude, base);
    i := |ds|;
    tmpLen := precision;
    if i > tmpLen { tmpLen := i; }
    if 0 <= offset < tmpLen {
      i := i + offset - tmpLen;
      offset := offset - tmpLen;
      tmpLen := i;
    } else {
      offset := offset - tmpLen;
    }
  }

  predicate Measured(n: nat, room: int, precision: int, offset: int, i: int, tmpLen: int) {
    var wanted := Max(precision, n);
    && offset == room - wanted
    && i == (if 0 <= room < wanted then n + room - wanted else n)
    && tmpLen == (if 0 <= room < wanted then i else wanted)
  }

  function HeadPieces(sign: string, base: nat, flags: Flags, offset: int): string {
    Repeat(' ', if flags.zeropad || flags.left then 0 else offset) + sign + PrefixText(base, flags)
  }

  function BodyPieces(flags: Flags, ds: seq<nat>, offset: int, i: int, tmpLen: int): string
    requires i <= |ds| && forall k :: 0 <= k < |ds| ==> ds[k] < 36
  {
    Repeat('0', if flags.zeropad && !flags.left then offset else 0) + Repeat('0', tmpLen - i)
    + DigitText(ds[..Max(0, i)], flags.lowercase)
  }

  /** What the writing half of `itoa_k` puts out, loop by loop. */
  function Pieces(sign: string, base: nat, flags: Flags, ds: seq<nat>, offset: int, i: int, tmpLen: int): string
    requires i <= |ds| && forall k :: 0 <= k < |ds| ==> ds[k] < 36
  {
    HeadPieces(sign, base, flags, offset) + BodyPieces(flags, ds, offset, i, tmpLen)
    + Repeat(' ', if flags.left then offset else 0)
  }

  lemma PiecesMakeRender(num: int, size: int, base: nat, precision: int, type_: Flags, flags: Flags,
                         ds: seq<nat>, offset: int, i: int, tmpLen: int)
    requires BaseInRange(base) && -TWO63 <= num < TWO63
    requires flags == if type_.left then type_.(zeropad := false) else type_
    requires ds == Digits(Magnitude(num, type_), base)
    requires Measured(|ds|, Room(num, size, base, flags), precision, offset, i, tmpLen)
    ensures Pieces(SignText(num, flags), base, flags, ds, offset, i, tmpLen)
         == Render(num, size, base, precision, type_)
  {
    assert HeadPieces(SignText(num, flags), base, flags, offset) == Head(num, size, base, precision, type_);
    BodyIs(type_, flags, Room(num, size, base, type_), precision, ds, offset, i, tmpLen);
  }

  lemma EmptyFront(a: string, b: string, text: string)
    requires a == [] && b == []
    ensures a + b + text == text
  {
  }

  lemma BodyIs(type_: Flags, flags: Flags, room: int, precision: int, ds: seq<nat>, offset: int, i: int, tmpLen: int)
    requires flags == if type_.left then type_.(zeropad := false) else type_
    requires forall k :: 0 <= k < |ds| ==> ds[k] < 36
    requires Measured(|ds|, room, precision, offset, i, tmpLen)
    ensures i <= |ds| && BodyPieces(flags, ds, offset, i, tmpLen) == BodyOf(ds, room, precision, type_)
  {
    if 0 <= room < Max(precision, |ds|) {
      EmptyFront(Repeat('0', if flags.zeropad && !flags.left then offset else 0), Repeat('0', tmpLen - i),
                 DigitText(ds[..Max(0, i)], flags.lowercase));
    } else {
      assert ds[..i] == ds && Max(0, i) == i;
    }
  }

  /** The blanks of a right-justified number, its sign and its prefix
      (core/print.c:141-173). */
  method WriteHead(buf: array<char>, str: nat, sign: string, base: nat, flags: Flags, offset: int,
                   ghost orig: seq<char>, ghost text: string)
    returns (p: nat, left: int)
    requires |sign| <= 1 && str + |HeadPieces(sign, base, flags, offset)| <= buf.Length
    requires Wrote(buf, orig, text) && str == |text|
    modifies buf
    ensures p == str + |HeadPieces(sign, base, flags, offset)|
    ensures Wrote(buf, orig, text + HeadPieces(sign, base, flags, offset))
    ensures if flags.zeropad || flags.left then left == offset else left < 0
  {
    p, left := str, offset;
    ghost var lead := Repeat(' ', if flags.zeropad || flags.left then 0 else offset);
    assert text + [] == text;
    if !(flags.zeropad || flags.left) {
      p, left := Pad(buf, p, ' ', left, orig, text);
    }
    p := WritePrefix(buf, p, sign, base, flags, orig, text + lead);
    assert text + lead + (sign + PrefixText(base, flags)) == text + (lead + sign + PrefixText(base, flags));
  }

  method WritePrefix(buf: array<char>, str: nat, sign: string, base: nat, flags: Flags, ghost orig: seq<char>,
                     ghost text: string)
    returns (p: nat)
    requires |sign| <= 1 && str + |sign| + |PrefixText(base, flags)| <= buf.Length
    requires Wrote(buf, orig, text) && str == |text|
    modifies buf
    ensures p == str + |sign| + |PrefixText(base, flags)|
    ensures Wrote(buf, orig, text + (sign + PrefixText(base, flags)))
  {
    p := str;
    if sign != "" { p := Put(buf, p, sign[0], orig, text); }
    ghost var before := text + sign;
    assert before == if sign == "" then text else text + [sign[0]];
    if flags.special {
      if base == 8 {
        p := Put(buf, p, '0', orig, before);
      } else if base == 16 {
        p := Put(buf, p, '0', orig, before);
        p := Put(buf, p, DigitChar(33, flags.lowercase), orig, before + ['0']);
        assert before + ['0'] + [DigitChar(33, flags.lowercase)] == before + ['0', DigitChar(33, flags.lowercase)];
      }
    }
    assert before + PrefixText(base, flags) == text + (sign + PrefixText(base, flags));
    assert before + [] == before;
  }

  /** The rest: zeros, digits, and the blanks of a left-justified number
      (core/print.c:175-200). */
  method WriteRest(buf: array<char>, str: nat, flags: Flags, ds: seq<nat>, offset: int, i: int, tmpLen: int,
                   ghost orig: seq<char>, ghost text: string)
    returns (p: nat)
    requires i <= |ds| && forall k :: 0 <= k < |ds| ==> ds[k] < 36
    requires !flags.zeropad && !flags.left ==> offset < 0
    requires str + |BodyPieces(flags, ds, offset, i, tmpLen)| + (if flags.left then Max(0, offset) else 0) <= buf.Length
    requires Wrote(buf, orig, text) && str == |text|
    modifies buf
    ensures p == str + |BodyPieces(flags, ds, offset, i, tmpLen)| + (if flags.left then Max(0, offset) else 0)
    ensures Wrote(buf, orig, text + BodyPieces(flags, ds, offset, i, tmpLen)
                             + Repeat(' ', if flags.left then offset else 0))
  {
    var c := if flags.zeropad then '0' else ' ';
    var left, len := offset, tmpLen;
    p := str;
    ghost var zeros := Repeat('0', if flags.zeropad && !flags.left then offset else 0);
    assert text + [] == text;
    if !flags.left {
      p, left := Pad(buf, p, c, left, orig, text);
    }
    p, len := Pad(buf, p, '0', len - i, orig, text + zeros);
    ghost var more, shown := Repeat('0', tmpLen - i), DigitText(ds[..Max(0, i)], flags.lowercase);
    p := PutDigits(buf, p, ds, i, flags.lowercase, orig, text + zeros + more);
    assert text + zeros + more + shown == text + (zeros + more + shown);
    p, left := Pad(buf, p, ' ', left, orig, text + (zeros + more + shown));
    if !flags.left { assert text + (zeros + more + shown) + [] == text + (zeros + more + shown); }
  }

  /** The digits of `num` are those written, followed by those of what is left. */
  ghost predicate DigitsLeft(num: nat, base: nat, tmp: seq<nat>, left: nat)
    requires base >= 2
  {
    Digits(num, base) == if left == 0 then tmp else tmp + Digits(left, base)
  }

  lemma DigitsLeftStart(num: nat, base: nat)
    requires base >= 2 && num > 0
    ensures DigitsLeft(num, base, [], num)
  {
    assert [] + Digits(num, base) == Digits(num, base);
  }

  lemma DigitsLeftStep(num: nat, base: nat, tmp: seq<nat>, m: nat)
    requires base >= 2 && m > 0 && DigitsLeft(num, base, tmp, m)
    ensures m >= m % base && (m - m % base) / base < m
    ensures DigitsLeft(num, base, tmp + [m % base], (m - m % base) / base)
  {
    DigitStep(m, base);
    if m / base != 0 {
      assert tmp + ([m % base] + Digits(m / base, base)) == tmp + [m % base] + Digits(m / base, base);
    }
  }

  /** The division loop (core/print.c:92-121); `tmp` holds the digits backward. */
  method WriteDigits(num: nat, base: nat) returns (tmp: seq<nat>)
    requires base >= 2
    ensures tmp == Digits(num, base)
  {
    tmp := [];
    if num == 0 { return [0]; }
    var nnn: nat := num;
    DigitsLeftStart(num, base);
    while nnn != 0
      invariant DigitsLeft(num, base, tmp, nnn)
      decreases nnn
    {
      DigitsLeftStep(num, base, tmp, nnn);
      var n := nnn % base;
      tmp := tmp + [n];
      nnn := (nnn - n) / base;
    }
  }

  lemma DigitStep(m: nat, base: nat)
    requires base >= 2 && m > 0
    ensures m >= m % base && (m - m % base) / base == m / base < m
    ensures Digits(m, base) == if m / base == 0 then [m % base] else [m % base] + Digits(m / base, base)
  {
    SubDiv(m, base);
    DivSmaller(m, base);
    if m < base { SmallModulo(m, base); }
  }

  lemma SubDiv(m: nat, base: nat)
    requires base >= 2
    ensures (m - m % base) / base == m / base
    ensures m / base == 0 <==> m < base
  {
    var q := m / base;
    assert m - m % base == base * q;
    DivUnique(m - m % base, base, q, 0);
  }

  // ---------------------------------------------------------------- length

  /** The length of a rendering: sign and prefix, then the digits or the precision, whichever
      is longer, then what is missing to the field; a field too narrow for the digits cuts
      them down, by as much as the precision misses. */
  lemma RenderLength(num: int, size: int, base: nat, precision: int, flags: Flags)
    requires BaseInRange(base) && -TWO63 <= num < TWO63
    ensures var n, room := |Digits(Magnitude(num, flags), base)|, Room(num, size, base, flags);
            var wanted, front := Max(precision, n), |SignText(num, flags)| + |PrefixText(base, flags)|;
            |Render(num, size, base, precision, flags)| ==
            if room < 0 then front + wanted
            else if room < wanted then front + Max(0, n + room - wanted)
            else size
  {
  }

  /** A rendering has exactly the field's width if and only if sign and prefix fit and the
      number needs no more than the field, or is cut by no more than the field has room for. */
  lemma RenderFits(num: int, size: int, base: nat, precision: int, flags: Flags)
    requires BaseInRange(base) && -TWO63 <= num < TWO63
    ensures var n, room := |Digits(Magnitude(num, flags), base)|, Room(num, size, base, flags);
            |Render(num, size, base, precision, flags)| == size <==>
            room >= 0 && (precision <= n || precision <= room || room == 0)
  {
    RenderLength(num, size, base, precision, flags);
  }

  /** No number has more than 64 digits. */
  lemma AtMost64Digits(num: int, base: nat, flags: Flags)
    requires BaseInRange(base) && -TWO63 <= num < TWO63
    ensures |Digits(Magnitude(num, flags), base)| <= 64
  {
    TwoTo64();
    DigitCount(Magnitude(num, flags), base, 64);
  }

  lemma {:induction false} DigitCount(m: nat, base: nat, n: nat)
    requires base >= 2 && n >= 1 && m < Pow2(n)
    ensures |Digits(m, base)| <= n
    decreases n
  {
    if m >= base {
      DivHalf(m, base);
      DigitCount(m / base, base, n - 1);
    }
  }

  lemma DivHalf(m: nat, base: nat)
    requires base >= 2
    ensures m / base <= m / 2
  {
    var q := m / base;
    assert base * q <= m;
    MulGap(q, 2, base);
    assert 2 * q <= base * q;
  }

  // ---------------------------------------------------------------- value

  function CharValue(c: char): nat {
    if '0' <= c <= '9' then c as nat - '0' as nat
    else if 'A' <= c <= 'Z' then c as nat - 'A' as nat + 10
    else if 'a' <= c <= 'z' then c as nat - 'a' as nat + 10
    else 0
  }

  /** Reads a numeral, most significant digit first. */
  function Read(text: string, base: nat): nat {
    if text == "" then 0
    else base * Read(text[..|text| - 1], base) + CharValue(text[|text| - 1])
  }

  function Pow(base: nat, k: nat): nat {
    if k == 0 then 1 else base * Pow(base, k - 1)
  }

  /** The value of digits stored least significant first. */
  function Eval(ds: seq<nat>, base: nat): nat {
    if ds == [] then 0 else ds[0] + base * Eval(ds[1..], base)
  }

  lemma ReadSnoc(text: string, c: char, base: nat)
    ensures Read(text + [c], base) == base * Read(text, base) + CharValue(c)
  {
    var all := text + [c];
    assert all[..|all| - 1] == text;
  }

  lemma CharValueIs(d: nat, lowercase: bool)
    requires d < 36
    ensures CharValue(DigitChar(d, lowercase)) == d
  {
  }

  lemma {:induction false} ReadDigitText(ds: seq<nat>, base: nat, lowercase: bool)
    requires forall i :: 0 <= i < |ds| ==> ds[i] < 36
    ensures Read(DigitText(ds, lowercase), base) == Eval(ds, base)
  {
    if ds != [] {
      var d, rest := ds[0], DigitText(ds[1..], lowercase);
      ReadDigitText(ds[1..], base, lowercase);
      CharValueIs(d, lowercase);
      ReadSnoc(rest, DigitChar(d, lowercase), base);
    }
  }

  lemma ReadZeroSnoc(n: nat, front: string, c: char, base: nat)
    requires Read(Repeat('0', n) + front, base) == Read(front, base)
    ensures Read(Repeat('0', n) + (front + [c]), base) == Read(front + [c], base)
  {
    ReadSnoc(Repeat('0', n) + front, c, base);
    ReadSnoc(front, c, base);
    assert Repeat('0', n) + (front + [c]) == Repeat('0', n) + front + [c];
  }

  lemma {:induction false} ReadZeros(n: nat, base: nat)
    ensures Read(Repeat('0', n) + "", base) == 0
  {
    if n != 0 {
      var front := Repeat('0', n - 1) + "";
      ReadZeros(n - 1, base);
      RepeatSnoc('0', n - 1);
      assert Repeat('0', n) + "" == front + ['0'];
      ReadSnoc(front, '0', base);
      assert base * Read(front, base) == base * 0 == 0;
    }
  }

  lemma {:induction false} ReadLeadingZeros(n: nat, text: string, base: nat)
    ensures Read(Repeat('0', n) + text, base) == Read(text, base)
    decreases |text|
  {
    if text == "" {
      ReadZeros(n, base);
    } else {
      var front, c := text[..|text| - 1], text[|text| - 1];
      ReadLeadingZeros(n, front, base);
      ReadZeroSnoc(n, front, c, base);
      assert text == front + [c];
    }
  }

  // The `k` lowest digits make the number modulo base^k.
  lemma {:induction false} EvalLowDigits(m: nat, base: nat, k: nat)
    requires base >= 2 && k <= |Digits(m, base)|
    ensures Pow(base, k) >= 1 && Eval(Digits(m, base)[..k], base) == m % Pow(base, k)
    ensures k == |Digits(m, base)| ==> m < Pow(base, k)
    decreases m
  {
    var ds := Digits(m, base);
    if k != 0 {
      if m < base {
        assert ds[..1] == [m] && Pow(base, 1) == base;
      } else {
        DivSmaller(m, base);
        EvalLowDigits(m / base, base, k - 1);
        assert ds[..k][1..] == Digits(m / base, base)[..k - 1];
        ModProduct(m, base, Pow(base, k - 1));
      }
    }
  }

  lemma ModProduct(m: nat, b: nat, p: nat)
    requires b >= 1 && p >= 1
    ensures b * p >= 1 && m % (b * p) == m % b + b * (m / b % p)
    ensures m / b < p ==> m < b * p
  {
    var q, r := m / b / p, m / b % p;
    assert m / b == p * q + r;
    assert m == b * (m / b) + m % b;
    assert b * (p * q + r) == (b * p) * q + b * r;
    MulGap(b, r, p);
    DivUnique(m, b * p, q, b * r + m % b);
    MulGap(b, m / b, p);
  }

  /** Behind sign and prefix stand the digits that the field leaves room for, and read back
      they give the magnitude modulo base^k, or all of it when every digit is shown. */
  lemma RenderValue(num: int, size: int, base: nat, precision: int, flags: Flags)
    requires BaseInRange(base) && -TWO63 <= num < TWO63
    ensures var m := Magnitude(num, flags);
            var n, room := |Digits(m, base)|, Room(num, size, base, flags);
            var k := Shown(n, room, Max(precision, n));
            && Pow(base, k) >= 1
            && Read(Body(num, size, base, precision, flags), base) == m % Pow(base, k)
            && (k == n ==> m % Pow(base, k) == m)
  {
    var m := Magnitude(num, flags);
    var ds, room := Digits(m, base), Room(num, size, base, flags);
    var wanted := Max(precision, |ds|);
    var k := Shown(|ds|, room, wanted);
    EvalLowDigits(m, base, k);
    ReadDigitText(ds[..k], base, flags.lowercase);
    if k == |ds| { SmallModulo(m, Pow(base, k)); }
    ReadBody(ds, room, base, precision, flags);
  }

  lemma ReadBody(ds: seq<nat>, room: int, base: nat, precision: int, flags: Flags)
    requires forall i :: 0 <= i < |ds| ==> ds[i] < 36
    ensures var k := Shown(|ds|, room, Max(precision, |ds|));
            Read(BodyOf(ds, room, precision, flags), base) == Read(DigitText(ds[..k], flags.lowercase), base)
  {
    var wanted := Max(precision, |ds|);
    if !(0 <= room < wanted) {
      assert ds[..|ds|] == ds;
      var pads := if flags.zeropad && !flags.left then room - wanted else 0;
      ReadZerosTwice(pads, wanted - |ds|, DigitText(ds, flags.lowercase), base);
    }
  }

  lemma ReadZerosTwice(a: int, b: int, text: string, base: nat)
    ensures Read(Repeat('0', a) + Repeat('0', b) + text, base) == Read(text, base)
  {
    var more := Repeat('0', b) + text;
    if b > 0 { ReadLeadingZeros(b, text, base); } else { assert more == text; }
    if a > 0 { ReadLeadingZeros(a, more, base); } else { assert Repeat('0', a) + more == more; }
    assert Repeat('0', a) + Repeat('0', b) + text == Repeat('0', a) + more;
  }

  lemma SmallModulo(m: nat, p: nat)
    requires m < p
    ensures m % p == m
  {
    DivUnique(m, p, 0, m);
  }

  // ---------------------------------------------------------------- atoi_k

  predicate IsDigit(c: char) { '0' <= c <= '9' }

  /** The character at `i`, a terminator behind the end. */
  function At(s: string, i: nat): char {
    if i < |s| then s[i] else '\0'
  }

  /** The position of the first non-digit from `i` on. */
  function DigitsEnd(s: string, i: nat): (e: nat)
    ensures i <= e && !IsDigit(At(s, e)) && (i <= |s| ==> e <= |s|)
    ensures forall j :: i <= j < e ==> IsDigit(At(s, j))
    decreases |s| - i
  {
    if IsDigit(At(s, i)) then DigitsEnd(s, i + 1) else i
  }

  /** A value in a 32-bit `int`, with the wrap-around that two's complement has. */
  function AsInt32(n: int): (r: int)
    ensures -TWO31 <= r < TWO31
    ensures -TWO31 <= n < TWO31 ==> r == n
  {
    var b := n % TWO32;
    if b < TWO31 then b else b - TWO32
  }

  lemma AppendDigit(a: nat, d: nat)
    ensures AsInt32(AsInt32(a) * 10 + d) == AsInt32(10 * a + d)
  {
    var b, q := AsInt32(a), a / TWO32;
    var t: int := if a % TWO32 < TWO31 then q else q + 1;
    assert a == TWO32 * t + b;
    SameModulo(10 * a + d, b * 10 + d, 10 * t);
  }

  lemma SameModulo(x: int, y: int, t: int)
    requires x == TWO32 * t + y
    ensures x % TWO32 == y % TWO32
  {
  }

  lemma ReadNext(s: string, at: nat, next: nat)
    requires at <= next < |s| && IsDigit(s[next])
    ensures Read(s[at..next + 1], 10) == 10 * Read(s[at..next], 10) + (s[next] as int - '0' as int)
  {
    assert s[at..next + 1] == s[at..next] + [s[next]];
    ReadSnoc(s[at..next], s[next], 10);
  }

  /** The value read is that of the digits up to the first non-digit, where the pointer is
      left. */
  method AtoiK(s: string, at: nat) returns (value: int, next: nat)
    requires at <= |s|
    ensures next == DigitsEnd(s, at) <= |s| && value == AsInt32(Read(s[at..next], 10))
  {
    value, next := 0, at;
    while IsDigit(At(s, next))
      invariant at <= next <= |s| && DigitsEnd(s, at) == DigitsEnd(s, next)
      invariant value == AsInt32(Read(s[at..next], 10))
      decreases |s| - next
    {
      ReadNext(s, at, next);
      AppendDigit(Read(s[at..next], 10), s[next] as int - '0' as int);
      value := AsInt32(value * 10 + (s[next] as int - '0' as int));
      next := next + 1;
    }
  }

  /** Decimal round trip: `atoi_k` reads the plain rendering of a non-negative number, whatever
      stands in front of it and whatever non-digit follows, and stops right behind it; it reads
      that number if and only if the number fits in an `int`. */
  lemma DecimalRoundTrip(num: int, before: string, after: string)
    requires 0 <= num < TWO63 && !IsDigit(At(after, 0))
    ensures var text := Render(num, -1, 10, -1, NO_FLAGS);
            var s := before + text + after;
            && DigitsEnd(s, |before|) == |before| + |text|
            && Read(s[|before|..DigitsEnd(s, |before|)], 10) == num
            && (AsInt32(Read(s[|before|..DigitsEnd(s, |before|)], 10)) == num <==> num < TWO31)
  {
    PlainDecimal(num);
    DigitsAmong(before, Render(num, -1, 10, -1, NO_FLAGS), after);
  }

  lemma PlainDecimal(num: int)
    requires 0 <= num < TWO63
    ensures var text := Render(num, -1, 10, -1, NO_FLAGS);
            Read(text, 10) == num && forall i :: 0 <= i < |text| ==> IsDigit(text[i])
  {
    SmallModulo(num, TWO64);
    PlainFlags(num, -1, 10, -1, NO_FLAGS);
    DecimalDigits(num);
  }

  lemma DecimalDigits(m: nat)
    ensures var text := DigitText(Digits(m, 10), false);
            Read(text, 10) == m && forall i :: 0 <= i < |text| ==> IsDigit(text[i])
  {
    PlainValue(m, 10);
    DecimalChars(Digits(m, 10));
  }

  // Without flags, field or precision nothing but the digits is written.
  lemma PlainFlags(num: int, size: int, base: nat, precision: int, flags: Flags)
    requires -TWO63 <= num < TWO63 && BaseInRange(base) && size < 0 && precision < 0 && flags == NO_FLAGS
    ensures Render(num, size, base, precision, flags) == DigitText(Digits(num % TWO64, base), false)
  {
    var ds := Digits(num % TWO64, base);
    PlainEnds(num, size, base, precision, flags);
    PlainBody(ds, size, precision);
    assert Magnitude(num, flags) == num % TWO64 && Room(num, size, base, flags) == size;
    Surrounded(DigitText(ds, false));
  }

  lemma Surrounded(text: string)
    ensures [] + ([] + [] + text) + [] == text
  {
  }

  lemma PlainEnds(num: int, size: int, base: nat, precision: int, flags: Flags)
    requires -TWO63 <= num < TWO63 && BaseInRange(base) && size < 0 && precision < 0 && flags == NO_FLAGS
    ensures Head(num, size, base, precision, flags) == [] == Trail(num, size, base, precision, flags)
  {
    assert SignText(num, flags) == [] && PrefixText(base, flags) == [];
  }

  lemma PlainBody(ds: seq<nat>, room: int, precision: int)
    requires room < 0 && precision < 0 && forall i :: 0 <= i < |ds| ==> ds[i] < 36
    ensures BodyOf(ds, room, precision, NO_FLAGS) == [] + [] + DigitText(ds, false)
  {
  }

  lemma PlainValue(m: nat, base: nat)
    requires BaseInRange(base)
    ensures Read(DigitText(Digits(m, base), false), base) == m
  {
    var ds := Digits(m, base);
    EvalLowDigits(m, base, |ds|);
    assert ds[..|ds|] == ds;
    SmallModulo(m, Pow(base, |ds|));
    ReadDigitText(ds, base, false);
  }

  lemma DigitsAmong(before: string, text: string, after: string)
    requires !IsDigit(At(after, 0)) && forall i :: 0 <= i < |text| ==> IsDigit(text[i])
    ensures var s := before + text + after;
            DigitsEnd(s, |before|) == |before| + |text| && s[|before|..|before| + |text|] == text
  {
    var s := before + text + after;
    assert At(s, |before| + |text|) == At(after, 0);
    forall j | |before| <= j < |before| + |text|
      ensures IsDigit(At(s, j))
    {
      assert s[j] == text[j - |before|];
    }
    DigitsEndIs(s, |before|, |before| + |text|);
  }

  lemma {:induction false} DecimalChars(ds: seq<nat>)
    requires forall i :: 0 <= i < |ds| ==> ds[i] < 10
    ensures forall i :: 0 <= i < |DigitText(ds, false)| ==> IsDigit(DigitText(ds, false)[i])
  {
    if ds != [] {
      DecimalChars(ds[1..]);
    }
  }

  lemma {:induction false} DigitsEndIs(s: string, i: nat, e: nat)
    requires i <= e <= |s| && !IsDigit(At(s, e)) && forall j :: i <= j < e ==> IsDigit(At(s, j))
    ensures DigitsEnd(s, i) == e
    decreases e - i
  {
    if i < e { DigitsEndIs(s, i + 1, e); }
  }
}
