/** `find_zero_sequence` (core/memblk.c:80-144): the word-at-a-time search of the block bitmap.

    At a word boundary the loop shifts a word by 64, which C leaves undefined.  `shift` holds
    what the machine delivers there, one word for every boundary: nothing for a shift that
    gives 0, and the words of the bitmap from the second on for the x86-64 shift, which takes
    its count modulo 64.  `Seen` is the bitmap as the loop sees it. */
module Scan {
  import opened Bits
  import opened Options

  // ---------------------------------------------------------------- the reference search

  /** Positions `s .. s + c` are all clear. */
  predicate ClearRun(bits: seq<bool>, s: nat, c: nat) {
    s + c <= |bits| && forall k :: s <= k < s + c ==> !bits[k]
  }

  /** Tries every start from `s` on, one at a time. */
  function FitFrom(bits: seq<bool>, c: nat, s: nat): (r: Option<nat>)
    ensures r.Some? ==> s <= r.value && ClearRun(bits, r.value, c)
    ensures r.Some? ==> forall t :: s <= t < r.value ==> !ClearRun(bits, t, c)
    ensures r.None? ==> forall t :: s <= t ==> !ClearRun(bits, t, c)
    decreases |bits| - s
  {
    if s + c > |bits| then None
    else if ClearRun(bits, s, c) then Some(s)
    else FitFrom(bits, c, s + 1)
  }

  function FirstFit(bits: seq<bool>, c: nat): Option<nat> {
    FitFrom(bits, c, 0)
  }

  lemma FirstFitIs(bits: seq<bool>, c: nat, r: Option<nat>)
    requires r.Some? ==> ClearRun(bits, r.value, c) && forall t: nat :: t < r.value ==> !ClearRun(bits, t, c)
    requires r.None? ==> forall t: nat :: !ClearRun(bits, t, c)
    ensures r == FirstFit(bits, c)
  {
    var f := FirstFit(bits, c);
    if r.Some? && f.Some? {
      assert !(r.value < f.value) && !(f.value < r.value);
    }
  }

  /** Searching more bits changes the answer exactly when the shorter stretch has no fit
      and the longer one has. */
  lemma LongerStretch(bits: seq<bool>, n: nat, c: nat)
    requires n <= |bits|
    ensures FirstFit(bits, c) == FirstFit(bits[..n], c)
       <==> FirstFit(bits[..n], c).Some? || FirstFit(bits, c).None?
  {
    assert forall t: nat :: t + c <= n ==> ClearRun(bits[..n], t, c) == ClearRun(bits, t, c);
    if FirstFit(bits[..n], c).Some? {
      FirstFitIs(bits, c, FirstFit(bits[..n], c));
    }
  }

  // ---------------------------------------------------------------- the bitmap as bits

  predicate Used(bitmap: seq<Word>, k: nat)
    requires k < 64 * |bitmap|
  {
    Bit(bitmap[k / 64], k % 64)
  }

  function BitsOf(bitmap: seq<Word>, n: nat): (bits: seq<bool>)
    requires n <= 64 * |bitmap|
    ensures |bits| == n && forall k :: 0 <= k < n ==> bits[k] == Used(bitmap, k)
  {
    seq(n, k requires 0 <= k < n => Used(bitmap, k))
  }

  lemma Quot(k: nat, q: nat, r: nat)
    requires k == 64 * q + r && r < 64
    ensures k / 64 == q && k % 64 == r
  {
  }

  // ---------------------------------------------------------------- one window

  /** What the shift by 64 delivers at word boundary `i`. */
  function Edge(shift: seq<Word>, i: nat): Word {
    if i < |shift| then shift[i] else 0
  }

  /** The 64 bits that the loop reads at position `pos` (core/memblk.c:104-106). */
  function WordAt(bitmap: seq<Word>, shift: seq<Word>, pos: nat): Word
    requires pos / 64 + 1 < |bitmap|
  {
    WindowIsWord(bitmap[pos / 64], bitmap[pos / 64 + 1], pos % 64, Edge(shift, pos / 64));
    Window(bitmap[pos / 64], bitmap[pos / 64 + 1], pos % 64, Edge(shift, pos / 64))
  }

  lemma WindowIsWord(a: Word, b: Word, off: nat, edge: Word)
    requires off < 64
    ensures Window(a, b, off, edge) < TWO64
  {
    ShrLe(a, off);
    TwoTo64();
    OrBound(Shr(a, off), if off == 0 then edge else Shl(b, 64 - off), 64);
  }

  lemma {:induction false} ShrLe(w: nat, n: nat)
    ensures Shr(w, n) <= w
    ensures n > 0 ==> Shr(w, n) <= w / 2
  {
    if n != 0 {
      ShrLe(w / 2, n - 1);
    }
  }

  /** Bit `p` of the word delivered at the boundary of its word. */
  predicate EdgeBit(shift: seq<Word>, p: nat) {
    Bit(Edge(shift, p / 64), p % 64)
  }

  lemma WordAtBits(bitmap: seq<Word>, shift: seq<Word>, pos: nat, j: nat)
    requires pos / 64 + 1 < |bitmap| && j < 64
    ensures Bit(WordAt(bitmap, shift, pos), j) == (Used(bitmap, pos + j) || (pos % 64 == 0 && EdgeBit(shift, pos + j)))
  {
    WindowBit(bitmap[pos / 64], bitmap[pos / 64 + 1], pos % 64, Edge(shift, pos / 64), j);
  }

  lemma AllOnes(j: nat)
    requires j < 64
    ensures Bit(ONES, j)
  {
    BitNot(ONES, j);
    ZeroBits(j);
  }

  /** `skip_ones(word >> z)` (core/memblk.c:80-83, 139). */
  function SkipOnes(word: Word, z: nat): nat {
    ShrLe(word, z);
    Ctz(Not(Shr(word, z)))
  }

  // A mixed word: `z` clear bits, then at least one and at most `64 - z` set bits.
  lemma MixedWord(word: Word)
    requires word != 0 && word != ONES
    ensures var z, m := LowestBit(word), SkipOnes(word, LowestBit(word));
            m >= 1 && z + m <= 64 && forall k :: z <= k < z + m ==> Bit(word, k)
  {
    var z := LowestBit(word);
    TwoTo64();
    LowestBitBelow(word, 64);
    ShrLe(word, z);
    var rest := Shr(word, z);
    LowestBitBelow(Not(rest), 64);
    BitNot(rest, 0);
    BitShr(word, z, 0);
    var m := LowestBit(Not(rest));
    LowestBitIs(Not(rest), 0);
    forall k | z <= k < z + m
      ensures k < 64 && Bit(word, k)
    {
      LowestBitIs(Not(rest), k - z);
      SetBitOfRest(word, z, k - z);
    }
    LowestBitIs(Not(rest), m - 1);
    SetBitOfRest(word, z, m - 1);
  }

  lemma SetBitOfRest(word: Word, z: nat, k: nat)
    requires Shr(word, z) < TWO64 && k < 64 && !Bit(Not(Shr(word, z)), k)
    ensures z + k < 64 && Bit(word, z + k)
  {
    BitNot(Shr(word, z), k);
    BitShr(word, z, k);
    TwoTo64();
    if z + k >= 64 { BitsBelow(word, 64, z + k); }
  }

  // ---------------------------------------------------------------- the bitmap as the loop sees it

  /** How many bits one iteration at `pos` takes for clear. */
  function ClearAt(bitmap: seq<Word>, shift: seq<Word>, pos: nat): nat
    requires pos / 64 + 1 < |bitmap|
  {
    var word := WordAt(bitmap, shift, pos);
    if word == 0 then 64 - pos % 64 else if word == ONES then 0 else LowestBit(word)
  }

  /** Where the next iteration starts. */
  function NextPos(bitmap: seq<Word>, shift: seq<Word>, pos: nat): nat
    requires pos / 64 + 1 < |bitmap|
  {
    var word := WordAt(bitmap, shift, pos);
    if word == 0 || word == ONES then (pos / 64 + 1) * 64
    else pos + LowestBit(word) + SkipOnes(word, LowestBit(word))
  }

  /** Every iteration moves on and classifies the bits it moves over as the window shows them:
      first clear ones, then set ones. */
  lemma Segment(bitmap: seq<Word>, shift: seq<Word>, pos: nat)
    requires pos / 64 + 1 < |bitmap|
    ensures var z, next := ClearAt(bitmap, shift, pos), NextPos(bitmap, shift, pos);
            && pos < next <= pos + 64 && pos + z <= next
            && (next % 64 != 0 ==> pos + z < next)
            && forall j :: 0 <= j < next - pos ==> Bit(WordAt(bitmap, shift, pos), j) == (j >= z)
  {
    var word, next := WordAt(bitmap, shift, pos), NextPos(bitmap, shift, pos);
    if word == 0 {
      forall j | 0 <= j < next - pos ensures !Bit(word, j) { ZeroBits(j); }
    } else if word == ONES {
      forall j | 0 <= j < next - pos ensures Bit(word, j) { AllOnes(j); }
    } else {
      MixedWord(word);
      forall j | 0 <= j < LowestBit(word) ensures !Bit(word, j) { LowestBitIs(word, j); }
    }
  }

  /** The bits from `pos` on, as the iterations from `pos` on classify them. */
  function SeenFrom(bitmap: seq<Word>, shift: seq<Word>, len: nat, pos: nat): seq<bool>
    requires len < |bitmap|
    decreases 64 * len - pos
  {
    if pos >= 64 * len then []
    else
      Segment(bitmap, shift, pos);
      var z, next := ClearAt(bitmap, shift, pos), NextPos(bitmap, shift, pos);
      seq(next - pos, j => j >= z) + SeenFrom(bitmap, shift, len, next)
  }

  function Seen(bitmap: seq<Word>, shift: seq<Word>, len: nat): seq<bool>
    requires len < |bitmap|
  {
    SeenFrom(bitmap, shift, len, 0)
  }

  /** Only the undefined shift can make a clear bit look set, and nothing makes a set bit look
      clear. */
  lemma {:induction false} SeenBits(bitmap: seq<Word>, shift: seq<Word>, len: nat, pos: nat)
    requires len < |bitmap|
    ensures var seen := SeenFrom(bitmap, shift, len, pos);
            && (pos < 64 * len ==> 64 * len <= pos + |seen| < 64 * (len + 1))
            && forall p :: pos <= p < pos + |seen| ==>
                 (Used(bitmap, p) ==> seen[p - pos]) && (seen[p - pos] ==> Used(bitmap, p) || EdgeBit(shift, p))
    decreases 64 * len - pos
  {
    if pos < 64 * len {
      Segment(bitmap, shift, pos);
      var next := NextPos(bitmap, shift, pos);
      SeenBits(bitmap, shift, len, next);
      var seen := SeenFrom(bitmap, shift, len, pos);
      forall p | pos <= p < next
        ensures (Used(bitmap, p) ==> seen[p - pos]) && (seen[p - pos] ==> Used(bitmap, p) || EdgeBit(shift, p))
      {
        WordAtBits(bitmap, shift, pos, p - pos);
        assert seen[p - pos] == Bit(WordAt(bitmap, shift, pos), p - pos);
      }
    }
  }

  // ---------------------------------------------------------------- the search loop

  /** What the search answers. */
  function Search(bitmap: seq<Word>, shift: seq<Word>, len: nat, c: nat): Option<nat>
    requires len < |bitmap|
  {
    if c == 0 then None else FirstFit(Seen(bitmap, shift, len), c)
  }

  /** Positions `s .. s + c` of the bitmap are clear. */
  predicate Free(bitmap: seq<Word>, s: nat, c: nat) {
    s + c <= 64 * |bitmap| && forall p :: s <= p < s + c ==> !Used(bitmap, p)
  }

  /** Whatever the shift delivers, a run that the search answers with is free. */
  lemma SearchHonest(bitmap: seq<Word>, shift: seq<Word>, len: nat, c: nat)
    requires len < |bitmap|
    ensures var r := Search(bitmap, shift, len, c);
            r.Some? ==> Free(bitmap, r.value, c) && r.value + c <= 64 * (len + 1)
  {
    var seen, r := Seen(bitmap, shift, len), Search(bitmap, shift, len, c);
    SeenBits(bitmap, shift, len, 0);
    if r.Some? {
      forall k | r.value <= k < r.value + c ensures !Used(bitmap, k) { assert !seen[k]; }
    }
  }

  // A clear run behind `z` clear and then set bits: it lies in the front or goes on in the rest.
  lemma RunSplits(z: nat, n: nat, rest: seq<bool>, t: nat, c: nat) returns (t': nat, c': nat)
    requires z <= n && ClearRun(seq(n, j => j >= z) + rest, t, c)
    ensures ClearRun(rest, t', c') && (c <= z || c == c' || (z == n && c <= n + c'))
  {
    var all := seq(n, j => j >= z) + rest;
    if t + c <= n {
      if c > 0 { assert !all[t + c - 1]; }
      t', c' := 0, 0;
    } else {
      t' := if t < n then 0 else t - n;
      c' := t + c - n - t';
      assert forall k :: t' <= k < t' + c' ==> rest[k] == all[n + k];
      if t < n { assert !all[n - 1]; }
    }
  }

  predicate Bounded(len: nat, pos: nat, c: nat) {
    c == 0 || c <= 64 * len - pos || (c < 64 && pos % 64 != 0)
  }

  lemma WholeWordLeft(len: nat, pos: nat)
    requires pos < 64 * len
    ensures pos % 64 == 0 ==> pos + 64 <= 64 * len
    ensures forall next :: pos < next <= pos + 64 && next % 64 == 0 ==> next <= 64 * len
  {
    Quot(pos, pos / 64, pos % 64);
    forall next | pos < next <= pos + 64 && next % 64 == 0
      ensures next <= 64 * len
    {
      assert next == 64 * (next / 64);
    }
  }

  lemma BoundedBack(len: nat, pos: nat, next: nat, z: nat, c: nat, c': nat)
    requires pos < 64 * len && pos < next <= pos + 64 && z <= next - pos && (z == next - pos ==> next % 64 == 0)
    requires Bounded(len, next, c') && (c <= z || c == c' || (z == next - pos && c <= next - pos + c'))
    ensures Bounded(len, pos, c)
  {
    WholeWordLeft(len, pos);
    if z == next - pos {
      assert next <= 64 * len;
    }
  }

  // No run that the loop sees is longer than the bitmap, even where it counts on behind it.
  lemma {:induction false} SeenRuns(bitmap: seq<Word>, shift: seq<Word>, len: nat, pos: nat, t: nat, c: nat)
    requires len < |bitmap| && ClearRun(SeenFrom(bitmap, shift, len, pos), t, c)
    ensures Bounded(len, pos, c)
    decreases 64 * len - pos
  {
    if pos < 64 * len {
      Segment(bitmap, shift, pos);
      var z, next := ClearAt(bitmap, shift, pos), NextPos(bitmap, shift, pos);
      var t', c' := RunSplits(z, next - pos, SeenFrom(bitmap, shift, len, next), t, c);
      SeenRuns(bitmap, shift, len, next, t', c');
      BoundedBack(len, pos, next, z, c, c');
    }
  }

  /** The quick check at core/memblk.c:89 is right: no run is longer than the bitmap. */
  lemma ShortBitmap(bitmap: seq<Word>, shift: seq<Word>, len: nat, c: nat)
    requires len < |bitmap| && 64 * len < c
    ensures Search(bitmap, shift, len, c) == None
  {
    var r := Search(bitmap, shift, len, c);
    if r.Some? && len > 0 {
      SeenRuns(bitmap, shift, len, 0, r.value, c);
    }
  }

  /** No clear run of length `c` starts before `ws`. */
  predicate NoneBefore(bits: seq<bool>, c: nat, ws: nat) {
    forall s: nat :: s < ws ==> !ClearRun(bits, s, c)
  }

  // A run cannot start in the window or in the set bits that end it.
  lemma RunEndsHere(bits: seq<bool>, c: nat, ws: nat, p: nat, q: nat)
    requires ws <= p < q <= |bits| && p - ws < c
    requires NoneBefore(bits, c, ws) && forall k :: p <= k < q ==> bits[k]
    ensures NoneBefore(bits, c, q)
  {
    forall s: nat | ws <= s < q
      ensures !ClearRun(bits, s, c)
    {
      var k := if s < p then p else s;
      assert bits[k] && s <= k < s + c;
    }
  }

  ghost predicate WindowClear(seen: seq<bool>, rest: seq<bool>, ws: nat, pos: nat)
    requires ws <= pos <= |seen|
  {
    seen[pos..] == rest && forall k :: ws <= k < pos ==> !seen[k]
  }

  /** What holds at the top of every iteration of the loop at core/memblk.c:102: the window is
      clear, no fitting run starts before it, and `rest` is still to be seen. */
  ghost predicate ScanInvariant(seen: seq<bool>, rest: seq<bool>, c: nat, pos: nat, ws: nat, zeros: nat) {
    ws <= pos <= |seen| && zeros == pos - ws && zeros < c && WindowClear(seen, rest, ws, pos) && NoneBefore(seen, c, ws)
  }

  ghost predicate Scanning(bitmap: seq<Word>, shift: seq<Word>, len: nat, c: nat, pos: nat, ws: nat, zeros: nat)
    requires len < |bitmap|
  {
    ScanInvariant(Seen(bitmap, shift, len), SeenFrom(bitmap, shift, len, pos), c, pos, ws, zeros)
  }

  lemma FoundAt(seen: seq<bool>, c: nat, ws: nat)
    requires ClearRun(seen, ws, c) && NoneBefore(seen, c, ws)
    ensures FirstFit(seen, c) == Some(ws)
  {
    FirstFitIs(seen, c, Some(ws));
  }

  /** Every iteration settles the search at the start of the window, or carries the window on
      to a later position, or starts a new window there. */
  lemma ScanStep(bitmap: seq<Word>, shift: seq<Word>, len: nat, c: nat, pos: nat, ws: nat, zeros: nat)
    requires len < |bitmap| && pos < 64 * len && Scanning(bitmap, shift, len, c, pos, ws, zeros)
    ensures var z, next := ClearAt(bitmap, shift, pos), NextPos(bitmap, shift, pos);
            && next > pos
            && if zeros + z >= c then Search(bitmap, shift, len, c) == Some(ws)
               else if pos + z == next then Scanning(bitmap, shift, len, c, next, ws, zeros + z)
               else Scanning(bitmap, shift, len, c, next, next, 0)
  {
    Segment(bitmap, shift, pos);
    var seen, z, next := Seen(bitmap, shift, len), ClearAt(bitmap, shift, pos), NextPos(bitmap, shift, pos);
    var rest := SeenFrom(bitmap, shift, len, pos);
    assert |rest| >= next - pos && rest[next - pos..] == SeenFrom(bitmap, shift, len, next);
    assert seen[next..] == seen[pos..][next - pos..];
    forall k | pos <= k < next
      ensures seen[k] == (k >= pos + z)
    {
      assert seen[k] == seen[pos..][k - pos] == rest[k - pos];
    }
    if zeros + z >= c {
      FoundAt(seen, c, ws);
    } else if pos + z < next {
      RunEndsHere(seen, c, ws, pos + z, next);
    }
  }

  /** A zero word settles the search at the start of the window or carries the window on to the
      next word boundary. */
  lemma ZeroAdvances(bitmap: seq<Word>, shift: seq<Word>, len: nat, c: nat, pos: nat, ws: nat, zeros: nat)
    requires len < |bitmap| && pos < 64 * len && Scanning(bitmap, shift, len, c, pos, ws, zeros)
    requires WordAt(bitmap, shift, pos) == 0
    ensures var available := 64 - pos % 64;
            && (zeros + available >= c ==> Search(bitmap, shift, len, c) == Some(ws))
            && (zeros + available < c ==> Scanning(bitmap, shift, len, c, pos + available, ws, zeros + available))
  {
    ScanStep(bitmap, shift, len, c, pos, ws, zeros);
  }

  /** A full word starts a new window at the next word boundary, further on. */
  lemma OnesAdvances(bitmap: seq<Word>, shift: seq<Word>, len: nat, c: nat, pos: nat, ws: nat, zeros: nat)
    requires len < |bitmap| && pos < 64 * len && Scanning(bitmap, shift, len, c, pos, ws, zeros)
    requires WordAt(bitmap, shift, pos) == ONES
    ensures var next := (pos / 64 + 1) * 64;
            next > pos && Scanning(bitmap, shift, len, c, next, next, 0)
  {
    ScanStep(bitmap, shift, len, c, pos, ws, zeros);
  }

  /** A mixed word settles the search or starts a new window behind its set bits, further on. */
  lemma MixedAdvances(bitmap: seq<Word>, shift: seq<Word>, len: nat, c: nat, pos: nat, ws: nat, zeros: nat)
    requires len < |bitmap| && pos < 64 * len && Scanning(bitmap, shift, len, c, pos, ws, zeros)
    requires WordAt(bitmap, shift, pos) != 0 && WordAt(bitmap, shift, pos) != ONES
    ensures var z := Ctz(WordAt(bitmap, shift, pos));
            var next := pos + z + SkipOnes(WordAt(bitmap, shift, pos), z);
            && (zeros + z >= c ==> Search(bitmap, shift, len, c) == Some(ws))
            && (zeros + z < c ==> next > pos && Scanning(bitmap, shift, len, c, next, next, 0))
  {
    MixedWord(WordAt(bitmap, shift, pos));
    ScanStep(bitmap, shift, len, c, pos, ws, zeros);
  }

  lemma ScanEnds(bitmap: seq<Word>, shift: seq<Word>, len: nat, c: nat, pos: nat, ws: nat, zeros: nat)
    requires len < |bitmap| && pos >= 64 * len && Scanning(bitmap, shift, len, c, pos, ws, zeros)
    ensures Search(bitmap, shift, len, c) == None
  {
    var seen := Seen(bitmap, shift, len);
    assert |seen| == pos;
    forall t: nat
      ensures !ClearRun(seen, t, c)
    {
    }
    FirstFitIs(seen, c, None);
  }

  /** The words that `bitmap_len * WORD_BITS` counts, in 64 bits. */
  function WordCount(bitmapLen: Word): (n: nat)
    ensures bitmapLen < 0x400_0000_0000_0000 ==> n == bitmapLen
    ensures bitmapLen == 0 ==> n == 0
  {
    bitmapLen % 0x400_0000_0000_0000
  }

  method BitmapBits(bitmapLen: Word) returns (n: Word)
    ensures n == 64 * WordCount(bitmapLen)
  {
    n := bitmapLen * 64 % TWO64;
  }

  /** The quick check (core/memblk.c:89-92) is right. */
  lemma QuickCheck(bitmap: seq<Word>, shift: seq<Word>, len: nat, c: nat)
    requires len < |bitmap| && (c == 0 || len == 0 || 64 * len < c)
    ensures Search(bitmap, shift, len, c) == None
  {
    if c != 0 { ShortBitmap(bitmap, shift, len, c); }
  }

  lemma ScanStarts(bitmap: seq<Word>, shift: seq<Word>, len: nat, c: nat)
    requires len < |bitmap| && c > 0
    ensures Scanning(bitmap, shift, len, c, 0, 0, 0)
  {
    assert Seen(bitmap, shift, len)[0..] == Seen(bitmap, shift, len);
  }

  /** One iteration of the loop (core/memblk.c:104-141): it settles the search, or the window
      and the position it leaves are those that the next one starts with. */
  method ScanWord(bitmap: seq<Word>, requiredLen: Word, shift: seq<Word>, pos: nat, windowStart: nat, currentZeros: nat,
                  ghost len: nat)
    returns (found: bool, pos': nat, windowStart': nat, currentZeros': nat)
    requires len < |bitmap| && pos < 64 * len
    requires Scanning(bitmap, shift, len, requiredLen, pos, windowStart, currentZeros)
    ensures found ==> Search(bitmap, shift, len, requiredLen) == Some(windowStart')
    ensures !found ==> pos' > pos && Scanning(bitmap, shift, len, requiredLen, pos', windowStart', currentZeros')
  {
    pos', windowStart', currentZeros' := pos, windowStart, currentZeros;
    var wordIdx := pos / 64;
    var bitOffset := pos % 64;
    var word := WordAt(bitmap, shift, pos);

    if word == 0 {
      ZeroAdvances(bitmap, shift, len, requiredLen, pos, windowStart, currentZeros);
      var available := 64 - bitOffset;
      currentZeros' := currentZeros' + available;
      found := currentZeros' >= requiredLen;
      if !found {
        pos' := pos' + available;
      }
    } else if word == ONES {
      OnesAdvances(bitmap, shift, len, requiredLen, pos, windowStart, currentZeros);
      found := false;
      currentZeros' := 0;
      windowStart' := (wordIdx + 1) * 64;
      pos' := windowStart';
    } else {
      MixedAdvances(bitmap, shift, len, requiredLen, pos, windowStart, currentZeros);
      var zeroOffset := Ctz(word);
      currentZeros' := currentZeros' + zeroOffset;
      found := currentZeros' >= requiredLen;
      if !found {
        pos' := pos' + zeroOffset;
        pos' := pos' + SkipOnes(word, zeroOffset);
        currentZeros' := 0;
        windowStart' := pos';
      }
    }
  }

  /** The loop (core/memblk.c:93-143). */
  method ScanWords(bitmap: seq<Word>, bitmapBits: nat, requiredLen: Word, shift: seq<Word>, ghost len: nat)
    returns (res: Option<nat>)
    requires len < |bitmap| && bitmapBits == 64 * len && requiredLen > 0
    ensures res == Search(bitmap, shift, len, requiredLen)
  {
    var currentZeros: nat := 0;
    var windowStart: nat := 0;
    var pos: nat := 0;
    res := None;
    ScanStarts(bitmap, shift, len, requiredLen);
    while pos < bitmapBits
      invariant Scanning(bitmap, shift, len, requiredLen, pos, windowStart, currentZeros)
      decreases bitmapBits - pos
    {
      var found;
      found, pos, windowStart, currentZeros :=
        ScanWord(bitmap, requiredLen, shift, pos, windowStart, currentZeros, len);
      if found {
        return Some(windowStart);
      }
    }
    ScanEnds(bitmap, shift, len, requiredLen, pos, windowStart, currentZeros);
  }

  /** The word-wise search is first fit on what it sees, and what it answers with is free. */
  method FindZeroSequence(bitmap: seq<Word>, bitmapLen: Word, requiredLen: Word, shift: seq<Word>)
    returns (res: Option<nat>)
    requires WordCount(bitmapLen) < |bitmap|
    ensures res == Search(bitmap, shift, WordCount(bitmapLen), requiredLen)
    ensures res.Some? ==> Free(bitmap, res.value, requiredLen)
  {
    ghost var len := WordCount(bitmapLen);
    var bitmapBits := BitmapBits(bitmapLen);
    if requiredLen == 0 || bitmapLen == 0 || bitmapBits < requiredLen {
      QuickCheck(bitmap, shift, len, requiredLen);
      return None;
    }
    res := ScanWords(bitmap, bitmapBits, requiredLen, shift, len);
    SearchHonest(bitmap, shift, len, requiredLen);
  }
}
