/** How far the search counts behind the bitmap, where the shift by 64 delivers nothing. */
module ScanReach {
  import opened Bits
  import opened Options
  import opened Scan

  /** How many bits it takes to write `w`. */
  function BitLength(w: nat): (n: nat)
    ensures n == 0 <==> w == 0
    ensures n > 0 ==> Bit(w, n - 1)
    ensures forall k :: n <= k ==> !Bit(w, k)
  {
    if w == 0 then
      assert forall k: nat :: !Bit(0, k) by { forall k: nat { ZeroBits(k); } }
      0
    else
      var m := BitLength(w / 2);
      assert forall k :: 1 <= k ==> Bit(w, k) == Bit(w / 2, k - 1);
      m + 1
  }

  /** The clear bits of the word behind the bitmap that the search can still count.  That
      happens only when a clear run starts inside the last word, off a word boundary, and
      lasts to its end. */
  function Spill(bitmap: seq<Word>, len: nat): (n: nat)
    requires 0 < len < |bitmap|
    ensures n < 64
  {
    var o := BitLength(bitmap[len - 1]);
    if 0 < o < 64 then
      var w := Window(bitmap[len - 1], bitmap[len], o, 0);
      if w == 0 then 0
      else
        WindowIsWord(bitmap[len - 1], bitmap[len], o, 0); TwoTo64(); LowestBitBelow(w, 64);
        if LowestBit(w) < 64 - o then 0 else LowestBit(w) - (64 - o)
    else 0
  }

  /** The number of bits the search takes into account. */
  function Reach(bitmap: seq<Word>, len: nat): nat
    requires len < |bitmap|
  {
    if len == 0 then 0 else 64 * len + Spill(bitmap, len)
  }

  // ---------------------------------------------------------------- where the search ends

  // The last run of clear bits of the bitmap starts at `pos`, inside the last word.
  ghost predicate TailStartsAt(bitmap: seq<Word>, len: nat, pos: nat) {
    && 0 < len < |bitmap| && 64 * (len - 1) < pos < 64 * len
    && Used(bitmap, pos - 1) && forall k :: pos <= k < 64 * len ==> !Used(bitmap, k)
  }

  lemma TailLength(bitmap: seq<Word>, len: nat, pos: nat)
    requires TailStartsAt(bitmap, len, pos)
    ensures pos / 64 == len - 1 && pos % 64 == BitLength(bitmap[len - 1])
  {
    var last, o := bitmap[len - 1], pos - 64 * (len - 1);
    Quot(pos, len - 1, o);
    Quot(pos - 1, len - 1, o - 1);
    forall j | o <= j < 64
      ensures !Bit(last, j)
    {
      Quot(64 * (len - 1) + j, len - 1, j);
      assert !Used(bitmap, 64 * (len - 1) + j);
    }
    LengthOf(last, o);
  }

  lemma LengthOf(w: Word, o: nat)
    requires 0 < o < 64 && Bit(w, o - 1) && forall j :: o <= j < 64 ==> !Bit(w, j)
    ensures BitLength(w) == o
  {
    var n := BitLength(w);
    TwoTo64();
    if n > 64 { BitsBelow(w, 64, n - 1); }
  }

  // Then the search counts exactly as far as the window at `pos` is clear.
  lemma SpillAt(bitmap: seq<Word>, len: nat, pos: nat)
    requires TailStartsAt(bitmap, len, pos)
    ensures var w := WordAt(bitmap, [], pos);
            Reach(bitmap, len) == if w == 0 then 64 * len else pos + LowestBit(w)
  {
    TailLength(bitmap, len, pos);
    var w := WordAt(bitmap, [], pos);
    assert w == Window(bitmap[len - 1], bitmap[len], pos % 64, 0);
    forall j | 0 <= j < 64 - pos % 64
      ensures !Bit(w, j)
    {
      WordAtBits(bitmap, [], pos, j);
      assert !Used(bitmap, pos + j);
    }
  }

  lemma SpillTop(bitmap: seq<Word>, len: nat)
    requires 0 < len < |bitmap| && (Used(bitmap, 64 * len - 1) || bitmap[len - 1] == 0)
    ensures Reach(bitmap, len) == 64 * len
  {
    Quot(64 * len - 1, len - 1, 63);
  }

  lemma NoEdge(p: nat)
    ensures !EdgeBit([], p)
  {
    ZeroBits(p % 64);
  }

  // What an iteration at `pos` makes of the positions it moves over.
  lemma PlainSegment(bitmap: seq<Word>, pos: nat, p: nat)
    requires pos / 64 + 1 < |bitmap| && pos <= p < NextPos(bitmap, [], pos)
    ensures NextPos(bitmap, [], pos) <= pos + 64 && (Used(bitmap, p) <==> p >= pos + ClearAt(bitmap, [], pos))
  {
    Segment(bitmap, [], pos);
    WordAtBits(bitmap, [], pos, p - pos);
    NoEdge(p);
  }

  // The last iteration, with `z` clear bits, ends the search behind them or at the last word.
  lemma LastSegment(bitmap: seq<Word>, len: nat, pos: nat)
    requires 0 < len < |bitmap| && pos < 64 * len <= NextPos(bitmap, [], pos)
    requires pos % 64 != 0 ==> Used(bitmap, pos - 1)
    ensures var stop := pos + ClearAt(bitmap, [], pos);
            Reach(bitmap, len) == if stop >= 64 * len then stop else 64 * len
  {
    var stop, next := pos + ClearAt(bitmap, [], pos), NextPos(bitmap, [], pos);
    Segment(bitmap, [], pos);
    if stop < 64 * len {
      PlainSegment(bitmap, pos, 64 * len - 1);
      SpillTop(bitmap, len);
    } else {
      forall p | pos <= p < 64 * len
        ensures !Used(bitmap, p)
      {
        PlainSegment(bitmap, pos, p);
      }
      LastClear(bitmap, len, pos);
    }
  }

  lemma LastClear(bitmap: seq<Word>, len: nat, pos: nat)
    requires 0 < len < |bitmap| && pos < 64 * len <= pos + ClearAt(bitmap, [], pos)
    requires pos % 64 != 0 ==> Used(bitmap, pos - 1)
    requires forall p :: pos <= p < 64 * len ==> !Used(bitmap, p)
    ensures Reach(bitmap, len) == pos + ClearAt(bitmap, [], pos)
  {
    Segment(bitmap, [], pos);
    if pos % 64 != 0 {
      LastOffset(len, pos);
      SpillAt(bitmap, len, pos);
      LastClearIs(bitmap, len, pos);
    } else {
      LastWord(len, pos, pos + ClearAt(bitmap, [], pos));
      EmptyWord(bitmap, len - 1);
      SpillTop(bitmap, len);
    }
  }

  lemma LastClearIs(bitmap: seq<Word>, len: nat, pos: nat)
    requires len < |bitmap| && pos < 64 * len == pos + (64 - pos % 64) && Bit(WordAt(bitmap, [], pos), 0) == false
    ensures var w := WordAt(bitmap, [], pos);
            pos + ClearAt(bitmap, [], pos) == if w == 0 then 64 * len else pos + LowestBit(w)
  {
    AllOnes(0);
  }

  lemma LastOffset(len: nat, pos: nat)
    requires pos % 64 != 0 && pos < 64 * len <= pos + 64
    ensures 64 * (len - 1) < pos && pos + (64 - pos % 64) == 64 * len
  {
    var q, r := pos / 64, pos % 64;
    assert pos == 64 * q + r;
    assert len - 1 <= q <= len - 1;
  }

  lemma LastWord(len: nat, pos: nat, stop: nat)
    requires pos % 64 == 0 && pos < 64 * len <= stop <= pos + 64
    ensures pos == 64 * (len - 1) && stop == 64 * len
  {
  }

  lemma EmptyWord(bitmap: seq<Word>, w: nat)
    requires w < |bitmap| && forall p :: 64 * w <= p < 64 * w + 64 ==> !Used(bitmap, p)
    ensures bitmap[w] == 0
  {
    if bitmap[w] != 0 {
      var b := LowestBit(bitmap[w]);
      TwoTo64();
      LowestBitBelow(bitmap[w], 64);
      Quot(64 * w + b, w, b);
      assert Used(bitmap, 64 * w + b);
    }
  }

  // Behind the bitmap the loop sees clear bits up to the reach and then set ones.
  ghost predicate TailSeen(seen: seq<bool>, pos: nat, end: nat, reach: nat) {
    reach <= pos + |seen| && forall q :: 0 <= q < |seen| && pos + q >= end ==> seen[q] == (pos + q >= reach)
  }

  lemma TailBack(seen: seq<bool>, rest: seq<bool>, pos: nat, next: nat, end: nat, reach: nat)
    requires pos <= next <= end && next <= pos + |seen| && seen[next - pos..] == rest
             && TailSeen(rest, next, end, reach)
    ensures TailSeen(seen, pos, end, reach)
  {
    forall q | 0 <= q < |seen| && pos + q >= end
      ensures seen[q] == (pos + q >= reach)
    {
      assert seen[q] == rest[q - (next - pos)];
    }
  }

  lemma {:induction false} SeenTail(bitmap: seq<Word>, len: nat, pos: nat)
    requires 0 < len < |bitmap| && pos < 64 * len && (pos % 64 != 0 ==> Used(bitmap, pos - 1))
    ensures TailSeen(SeenFrom(bitmap, [], len, pos), pos, 64 * len, Reach(bitmap, len))
    decreases 64 * len - pos
  {
    Segment(bitmap, [], pos);
    var seen, z, next := SeenFrom(bitmap, [], len, pos), ClearAt(bitmap, [], pos), NextPos(bitmap, [], pos);
    var rest := SeenFrom(bitmap, [], len, next);
    assert seen == seq(next - pos, j => j >= z) + rest;
    if next < 64 * len {
      if next % 64 != 0 { PlainSegment(bitmap, pos, next - 1); }
      SeenTail(bitmap, len, next);
      TailBack(seen, rest, pos, next, 64 * len, Reach(bitmap, len));
    } else {
      LastSegment(bitmap, len, pos);
      assert forall q :: 0 <= q < |seen| ==> seen[q] == (q >= z);
    }
  }

  /** A shift that delivers nothing makes the search first fit on the bits within reach. */
  lemma PlainSearch(bitmap: seq<Word>, len: nat, c: nat)
    requires len < |bitmap| && c > 0
    ensures Search(bitmap, [], len, c) == FirstFit(BitsOf(bitmap, Reach(bitmap, len)), c)
  {
    var seen, bits := Seen(bitmap, [], len), BitsOf(bitmap, Reach(bitmap, len));
    SeenBits(bitmap, [], len, 0);
    if len > 0 { SeenTail(bitmap, len, 0); }
    forall p | 0 <= p < |seen|
      ensures seen[p] == (p >= |bits| || bits[p])
    {
      NoEdge(p);
      if p < 64 * len { assert bits[p] == Used(bitmap, p); }
    }
    SameRuns(bits, seen, c);
  }

  lemma SameRuns(bits: seq<bool>, seen: seq<bool>, c: nat)
    requires |bits| <= |seen| && c > 0 && forall p :: 0 <= p < |seen| ==> seen[p] == (p >= |bits| || bits[p])
    ensures FirstFit(seen, c) == FirstFit(bits, c)
  {
    forall t: nat
      ensures ClearRun(seen, t, c) == ClearRun(bits, t, c)
    {
      if ClearRun(seen, t, c) { assert !seen[t + c - 1]; }
    }
    FirstFitIs(seen, c, FirstFit(bits, c));
  }

  // ---------------------------------------------------------------- when the search stays inside

  lemma SpillSmall(bitmap: seq<Word>, len: nat)
    requires 0 < len < |bitmap| && Spill(bitmap, len) > 0
    ensures Spill(bitmap, len) < BitLength(bitmap[len - 1]) < 64
  {
    var o := BitLength(bitmap[len - 1]);
    WindowIsWord(bitmap[len - 1], bitmap[len], o, 0);
    TwoTo64();
    LowestBitBelow(Window(bitmap[len - 1], bitmap[len], o, 0), 64);
  }

  // Where the bitmap spills, its last clear run is followed by `Spill` more clear bits.
  lemma SpillRun(bitmap: seq<Word>, len: nat)
    requires 0 < len < |bitmap| && Spill(bitmap, len) > 0
    ensures var tail := 64 * len - (64 - BitLength(bitmap[len - 1]));
            && 0 < tail < 64 * len && Used(bitmap, tail - 1)
            && (forall k :: tail <= k < Reach(bitmap, len) ==> !Used(bitmap, k))
            && ClearRun(BitsOf(bitmap, Reach(bitmap, len)), tail, Reach(bitmap, len) - tail)
  {
    SpillSmall(bitmap, len);
    var o := BitLength(bitmap[len - 1]);
    var tail := 64 * (len - 1) + o;
    Quot(tail, len - 1, o);
    Quot(tail - 1, len - 1, o - 1);
    
    var w := WordAt(bitmap, [], tail);
    assert w == Window(bitmap[len - 1], bitmap[len], o, 0) && Reach(bitmap, len) == tail + LowestBit(w);
    forall k | tail <= k < Reach(bitmap, len)
      ensures !Used(bitmap, k)
    {
      LowestBitIs(w, k - tail);
      WordAtBits(bitmap, [], tail, k - tail);
    }
  }

  /** That search answers for the `len` words of the bitmap alone, whatever the request, if and
      only if it does not spill, or some run inside the bitmap is as long as the last run
      together with what spills. */
  lemma SearchStaysInside(bitmap: seq<Word>, len: nat)
    requires 0 < len < |bitmap|
    ensures var far, near := BitsOf(bitmap, Reach(bitmap, len)), BitsOf(bitmap, 64 * len);
            (forall c: nat :: c > 0 ==> FirstFit(far, c) == FirstFit(near, c)) <==>
            (Spill(bitmap, len) == 0
             || FirstFit(near, 64 - BitLength(bitmap[len - 1]) + Spill(bitmap, len)).Some?)
  {
    var far, near := BitsOf(bitmap, Reach(bitmap, len)), BitsOf(bitmap, 64 * len);
    assert near == far[..64 * len];
    if Spill(bitmap, len) > 0 {
      SpillRun(bitmap, len);
      SpillSmall(bitmap, len);
      var tail := 64 * len - (64 - BitLength(bitmap[len - 1]));
      LongestDecides(far, near, tail, Reach(bitmap, len) - tail);
    } else {
      assert near == far;
    }
  }

  lemma LongestDecides(far: seq<bool>, near: seq<bool>, tail: nat, longest: nat)
    requires |near| < |far| && near == far[..|near|] && 0 < tail <= |near|
    requires far[tail - 1] && longest == |far| - tail && ClearRun(far, tail, longest)
    ensures (forall c: nat :: c > 0 ==> FirstFit(far, c) == FirstFit(near, c)) <==> FirstFit(near, longest).Some?
  {
    LongerStretch(far, |near|, longest);
    if FirstFit(near, longest).Some? {
      SameAnswers(far, near, tail, longest);
    }
  }

  lemma SameAnswers(far: seq<bool>, near: seq<bool>, tail: nat, longest: nat)
    requires |near| <= |far| && near == far[..|near|] && 0 < tail <= |near|
    requires far[tail - 1] && longest == |far| - tail && FirstFit(near, longest).Some?
    ensures forall c: nat :: c > 0 ==> FirstFit(far, c) == FirstFit(near, c)
  {
    forall c: nat | c > 0
      ensures FirstFit(far, c) == FirstFit(near, c)
    {
      LongerStretch(far, |near|, c);
      TailRunsAreShort(far, near, tail, c, longest);
    }
  }

  lemma TailRunsAreShort(far: seq<bool>, near: seq<bool>, tail: nat, c: nat, longest: nat)
    requires |near| <= |far| && near == far[..|near|] && 0 < tail <= |near|
    requires far[tail - 1] && longest == |far| - tail && c > 0
    requires FirstFit(near, longest).Some?
    ensures FirstFit(near, c).Some? || FirstFit(far, c).None?
  {
    var f := FirstFit(far, c);
    if f.Some? {
      if f.value + c <= |near| {
        assert ClearRun(near, f.value, c);
      } else {
        assert f.value >= tail;
        assert ClearRun(near, FirstFit(near, longest).value, c);
      }
    }
  }

  /** One set bit behind the bitmap is enough. */
  lemma GuardBit(bitmap: seq<Word>, len: nat)
    requires 0 < len < |bitmap| && Bit(bitmap[len], 0)
    ensures Spill(bitmap, len) == 0
  {
    GuardUsed(bitmap, len);
    if Spill(bitmap, len) > 0 { SpillRun(bitmap, len); }
  }

  lemma GuardUsed(bitmap: seq<Word>, len: nat)
    requires len < |bitmap| && Bit(bitmap[len], 0)
    ensures Used(bitmap, 64 * len)
  {
    var k := 64 * len;
    assert k / 64 == len && k % 64 == 0;
  }
}
